/**
 The pages of the room list: a window of eight rooms whose position is computed in 32-bit
 signed arithmetic with one unsigned comparison, padded to a fixed length.
 */
module RoomPages {
  import opened Integers
  import opened Rooms

  // End of the window: the product wraps as a 32-bit signed number, and a negative value
  // compares as a huge unsigned one.
  function WindowEnd(n: nat, page: int): (e: nat)
    requires n < TWO_31
    ensures e <= n
  {
    var endIndex := S32(page * ROOMS_PER_PAGE);
    if U64(endIndex) > n then n else endIndex
  }

  function WindowStart(n: nat, page: int): (b: nat)
    requires n < TWO_31
    ensures b <= WindowEnd(n, page) && WindowEnd(n, page) - b <= ROOMS_PER_PAGE
  {
    Max(WindowEnd(n, page) - 8, 0)
  }

  function InfoOf(r: RoomRec): RoomInfo {
    RoomInfo(r.maxCount, r.index, |r.members|, false)
  }

  function Infos(rooms: seq<RoomRec>): (r: seq<RoomInfo>)
    ensures |r| == |rooms|
    ensures forall i :: 0 <= i < |rooms| ==> r[i] == InfoOf(rooms[i])
  {
    seq(|rooms|, i requires 0 <= i < |rooms| => InfoOf(rooms[i]))
  }

  function Padding(n: nat): (r: seq<RoomInfo>)
    ensures |r| == n && forall i :: 0 <= i < n ==> r[i] == NO_ROOM
  {
    seq(n, i => NO_ROOM)
  }

  function Page(rooms: seq<RoomRec>, page: int): seq<RoomInfo>
    requires |rooms| < TWO_31
  {
    var shown := Infos(rooms[WindowStart(|rooms|, page)..WindowEnd(|rooms|, page)]);
    shown + Padding(ROOMS_PER_PAGE - |shown|)
  }

  // The entry tells the size and the number of players of the room found under its index.
  // It never says that the room is playing.
  predicate Shows(d: Directory, info: RoomInfo) {
    var r := Find(d, info.roomIndex);
    && r.Some?
    && info.maxPlayerCnt == r.value.maxCount && info.currentPlayerCnt == |r.value.members|
    && !info.isPlaying
  }

  // The entry is the room's.
  predicate Tells(info: RoomInfo, r: RoomRec) {
    && info.roomIndex == r.index && info.maxPlayerCnt == r.maxCount && info.currentPlayerCnt == |r.members|
    && !info.isPlaying
  }

  // Entry i of a page is the room i places after the start of the window.
  lemma PageEntries(rooms: seq<RoomRec>, page: int, i: nat)
    requires |rooms| < TWO_31 && i < ROOMS_PER_PAGE
    ensures var n := |rooms|;
            var b, e := WindowStart(n, page), WindowEnd(n, page);
            && |Page(rooms, page)| == ROOMS_PER_PAGE
            && (if b + i < e then Tells(Page(rooms, page)[i], rooms[b + i])
                else Page(rooms, page)[i] == RoomInfo(0, 0, 0, false))
  {
  }

  // On the first page, full pages and the last one, in terms of the rooms alone: page p shows
  // rooms 8*(p-1) to 8*p-1 when there are that many, and the last eight when there are not.
  lemma PageOfRooms(rooms: seq<RoomRec>, page: nat, i: nat)
    requires |rooms| <= TWO_31 - ROOMS_PER_PAGE && 1 <= page <= PageCount(|rooms|) && i < 8
    ensures |Page(rooms, page)| == 8
    ensures 8 * page <= |rooms| ==> Tells(Page(rooms, page)[i], rooms[8 * (page - 1) + i])
    ensures 8 * page > |rooms| >= 8 ==> Tells(Page(rooms, page)[i], rooms[|rooms| - 8 + i])
    ensures i < |rooms| < 8 ==> Tells(Page(rooms, page)[i], rooms[i])
  {
    WindowPlace(|rooms|, page);
    PageEntries(rooms, page, i);
  }

  // Every page, whatever its number, has eight entries: real rooms first, in strictly
  // increasing order of their indices, which are at least 1, and then only padding.
  lemma PageShape(d: Directory, page: int)
    requires Sorted(d) && |d.rooms| < TWO_31
    ensures var p, k := Page(d.rooms, page), WindowEnd(|d.rooms|, page) - WindowStart(|d.rooms|, page);
            && |p| == ROOMS_PER_PAGE
            && (forall i :: 0 <= i < k ==> 1 <= p[i].roomIndex < d.next && Shows(d, p[i]))
            && (forall i, j :: 0 <= i < j < k ==> p[i].roomIndex < p[j].roomIndex)
            && (forall i :: k <= i < ROOMS_PER_PAGE ==> p[i] == NO_ROOM)
  {
    var b, p, k := WindowStart(|d.rooms|, page), Page(d.rooms, page),
                   WindowEnd(|d.rooms|, page) - WindowStart(|d.rooms|, page);
    forall i | 0 <= i < k ensures p[i] == InfoOf(d.rooms[b + i]) && Shows(d, p[i]) {
      FindAt(d, b + i);
    }
  }

  // Number of the last page that a client needs.
  function PageCount(n: nat): nat {
    (n + ROOMS_PER_PAGE - 1) / ROOMS_PER_PAGE
  }

  // Pages that are full show consecutive groups of eight; every later page, and every
  // negative one, shows the last eight rooms.
  lemma WindowPlace(n: nat, page: int)
    requires n < TWO_31 && -0x1000_0000 <= page < 0x1000_0000
    ensures 1 <= page && ROOMS_PER_PAGE * page <= n ==>
              WindowStart(n, page) == ROOMS_PER_PAGE * (page - 1) && WindowEnd(n, page) == ROOMS_PER_PAGE * page
    ensures page < 0 || ROOMS_PER_PAGE * page > n ==>
              WindowStart(n, page) == Max(n - ROOMS_PER_PAGE, 0) && WindowEnd(n, page) == n
    ensures page == 0 ==> WindowStart(n, page) == WindowEnd(n, page) == 0
  {
  }

  // The pages from the first to the last show every room.
  lemma PagesCover(rooms: seq<RoomRec>, j: nat) returns (page: nat, i: nat)
    requires j < |rooms| <= TWO_31 - ROOMS_PER_PAGE
    ensures 1 <= page <= PageCount(|rooms|) && i < 8 == |Page(rooms, page)|
    ensures Tells(Page(rooms, page)[i], rooms[j])
  {
    page := j / ROOMS_PER_PAGE + 1;
    WindowPlace(|rooms|, page);
    i := j - WindowStart(|rooms|, page);
    PageEntries(rooms, page, i);
  }

  // Two different pages share a room only when they are the last two and the last is not
  // full of its own: they share the rooms that complete the last window.
  lemma PagesOverlap(n: nat, p: nat, q: nat)
    requires n <= TWO_31 - ROOMS_PER_PAGE && 1 <= p < q <= PageCount(n)
    ensures Max(WindowEnd(n, p) - WindowStart(n, q), 0)
            == if q == PageCount(n) && p == q - 1 && n % ROOMS_PER_PAGE != 0
               then ROOMS_PER_PAGE - n % ROOMS_PER_PAGE else 0
    ensures WindowStart(n, p) < WindowStart(n, q) && WindowEnd(n, p) < WindowEnd(n, q)
  {
    WindowPlace(n, p);
    WindowPlace(n, q);
  }

  // Page 0 is empty, and a page number beyond 32-bit range may wrap to it.
  lemma WrappedPage(rooms: seq<RoomRec>)
    requires |rooms| < TWO_31
    ensures Page(rooms, 0) == Page(rooms, 0x2000_0000) == Padding(ROOMS_PER_PAGE)
  {
  }
}
