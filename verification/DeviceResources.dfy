/**
 Device-lost recovery.  A graphics handle is modelled by the number of the device it was
 made from, and every answer of the driver is arbitrary.
 */
module DeviceResources {
  import opened Wrappers
  import opened Integers

  datatype HResult = S_OK | NOT_FOUND | E_FAIL | DEVICE_REMOVED | DEVICE_RESET

  // The calls whose answers matter.
  datatype DriverCall =
    | MakeFactory | TearingSupport | FindAdapter | HardwareDevice | SoftwareDevice
    | DeviceInterface | ContextInterface | AnnotationInterface
    | FactoryCurrent | ColorSpace
    | MakeSwapChain | WindowAssociation | ResizeBuffers
    | GetBuffer | MakeTargetView | MakeDepthBuffer | MakeDepthView
    | PresentFrame

  datatype Asked = Asked(call: DriverCall, answer: HResult)

  // The answer does not end the method that asked with an exception.
  predicate Tolerated(x: Asked, releaseBuild: bool) {
    match x.call
    case TearingSupport => true
    case FactoryCurrent => true
    case FindAdapter => x.answer == S_OK || (x.answer == NOT_FOUND && !releaseBuild)
    case HardwareDevice => x.answer == S_OK || !releaseBuild
    case ResizeBuffers => x.answer in {S_OK, DEVICE_REMOVED, DEVICE_RESET}
    case PresentFrame => x.answer in {S_OK, DEVICE_REMOVED, DEVICE_RESET}
    case _ => x.answer == S_OK
  }

  // Answer by answer: success is always tolerable, a plain failure where the source only
  // asks, the codes of a lost device where it recovers, no adapter in a debug build.
  lemma WhatIsTolerated(call: DriverCall, releaseBuild: bool)
    ensures Tolerated(Asked(call, S_OK), releaseBuild)
    ensures var asksOnly := call in {TearingSupport, FactoryCurrent} || (call == HardwareDevice && !releaseBuild);
            && (Tolerated(Asked(call, E_FAIL), releaseBuild) <==> asksOnly)
            && (Tolerated(Asked(call, DEVICE_REMOVED), releaseBuild)
                <==> asksOnly || call in {ResizeBuffers, PresentFrame})
            && (Tolerated(Asked(call, DEVICE_RESET), releaseBuild)
                <==> asksOnly || call in {ResizeBuffers, PresentFrame})
            && (Tolerated(Asked(call, NOT_FOUND), releaseBuild)
                <==> asksOnly || (call == FindAdapter && !releaseBuild))
  {
  }

  // All answers after the first `from` ones are tolerable.
  predicate NoFatalIn(trace: seq<Asked>, from: nat, releaseBuild: bool) {
    forall i :: from <= i < |trace| ==> Tolerated(trace[i], releaseBuild)
  }

  // A call comes after the first `from` ones.
  predicate MadeIn(trace: seq<Asked>, from: nat, call: DriverCall) {
    exists i :: from <= i < |trace| && trace[i].call == call
  }

  predicate MadeViewsIn(trace: seq<Asked>, from: nat, depth: bool) {
    && MadeIn(trace, from, GetBuffer) && MadeIn(trace, from, MakeTargetView)
    && (depth ==> MadeIn(trace, from, MakeDepthBuffer) && MadeIn(trace, from, MakeDepthView))
  }

  predicate MadeSwapChainIn(trace: seq<Asked>, from: nat) {
    MadeIn(trace, from, MakeSwapChain) && MadeIn(trace, from, WindowAssociation)
  }

  predicate MadeDeviceIn(trace: seq<Asked>, from: nat) {
    && MadeIn(trace, from, MakeFactory) && MadeIn(trace, from, FindAdapter) && MadeIn(trace, from, DeviceInterface)
    && MadeIn(trace, from, ContextInterface) && MadeIn(trace, from, AnnotationInterface)
  }

  // What holds of two stretches of a trace holds of both together.
  lemma JoinTraces(trace: seq<Asked>, more: seq<Asked>, from: nat, releaseBuild: bool)
    requires from <= |trace| && trace <= more
    ensures NoFatalIn(more, from, releaseBuild)
            <==> NoFatalIn(trace, from, releaseBuild) && NoFatalIn(more, |trace|, releaseBuild)
    ensures forall call :: MadeIn(trace, from, call) || MadeIn(more, |trace|, call) ==> MadeIn(more, from, call)
    ensures forall d :: MadeViewsIn(trace, from, d) || MadeViewsIn(more, |trace|, d) ==> MadeViewsIn(more, from, d)
    ensures MadeSwapChainIn(trace, from) || MadeSwapChainIn(more, |trace|) ==> MadeSwapChainIn(more, from)
    ensures MadeDeviceIn(trace, from) || MadeDeviceIn(more, |trace|) ==> MadeDeviceIn(more, from)
  {
    forall call | MadeIn(trace, from, call) ensures MadeIn(more, from, call) {
      var i :| from <= i < |trace| && trace[i].call == call;
      assert more[i].call == call;
    }
    if NoFatalIn(more, from, releaseBuild) {
      forall i | from <= i < |trace| ensures Tolerated(trace[i], releaseBuild) {
        assert more[i] == trace[i];
      }
    }
  }

  lemma NoAnswer(trace: seq<Asked>, releaseBuild: bool)
    ensures NoFatalIn(trace, |trace|, releaseBuild)
  {
  }

  // A method returns or leaves by an exception.
  datatype Exit = Returned | Threw

  predicate Succeeded(hr: HResult) {
    hr == S_OK
  }

  predicate DeviceLost(hr: HResult) {
    hr == DEVICE_REMOVED || hr == DEVICE_RESET
  }

  type Handle = Option<nat>

  // The feature levels that are asked for, the highest first.
  const FEATURE_LEVELS: seq<nat> := [0xb100, 0xb000, 0xa100, 0xa000, 0x9300, 0x9200, 0x9100]

  class DeviceResources {
    const minFeatureLevel: nat
    const hasDepthBuffer: bool
    const releaseBuild: bool
    var hasWindow: bool
    var hasNotify: bool
    var allowTearing: bool
    var width: int
    var height: int
    var viewport: (nat, nat)

    var hasFactory: bool
    var device: Handle
    var context: Handle
    var annotation: Handle
    var swapChain: Handle
    var renderTarget: Handle
    var renderTargetView: Handle
    var depthStencil: Handle
    var depthStencilView: Handle

    // The number of devices made so far, which names the current one.
    var generation: nat
    // The notifications sent.
    ghost var lost: nat
    ghost var restored: nat
    // Every answer of the driver; only `AskDriver` writes it.
    ghost var asked: seq<Asked>

    // The handle is free or belongs to the current device.
    ghost predicate Current(h: Handle)
      reads this`generation
    {
      h.Some? ==> h.value == generation
    }

    ghost predicate DeviceCurrent()
      reads this
    {
      Current(device) && Current(context) && Current(annotation)
    }

    ghost predicate NoneDependent()
      reads this
    {
      && swapChain.None? && renderTarget.None? && renderTargetView.None?
      && depthStencil.None? && depthStencilView.None?
    }

    // Every handle that is held belongs to the current device.
    ghost predicate Coherent()
      reads this
    {
      && DeviceCurrent() && Current(swapChain)
      && Current(renderTarget) && Current(renderTargetView)
      && Current(depthStencil) && Current(depthStencilView)
    }

    // Nothing of device g or an older one is held.
    ghost predicate NewerThan(g: nat)
      reads this
    {
      forall h <- [device, context, annotation, swapChain, renderTarget, renderTargetView,
                   depthStencil, depthStencilView] :: h.Some? ==> h.value > g
    }

    // Everything is there and belongs to the current device.
    ghost predicate Complete()
      reads this
    {
      && device == context == swapChain == renderTarget == renderTargetView == Some(generation)
      && depthStencil == depthStencilView == (if hasDepthBuffer then Some(generation) else None)
      && viewport == (Max(U32(width), 1), Max(U32(height), 1))
    }

    // All answers since the first `from` ones were tolerable.
    ghost predicate NoFatal(from: nat)
      reads this`asked
    {
      NoFatalIn(asked, from, releaseBuild)
    }

    // A call was made since then.
    ghost predicate Made(from: nat, call: DriverCall)
      reads this`asked
    {
      MadeIn(asked, from, call)
    }

    ghost predicate MadeViews(from: nat)
      reads this`asked
    {
      MadeViewsIn(asked, from, hasDepthBuffer)
    }

    ghost predicate MadeSwapChain(from: nat)
      reads this`asked
    {
      MadeSwapChainIn(asked, from)
    }

    ghost predicate MadeNewDevice(from: nat)
      reads this`asked
    {
      MadeDeviceIn(asked, from)
    }

    ghost function Handles(): seq<Handle>
      reads this
    {
      [device, context, annotation, swapChain, renderTarget, renderTargetView, depthStencil, depthStencilView]
    }

    // The highest feature level is not below the minimum.
    predicate LevelOk() {
      minFeatureLevel <= 0xb100
    }

    // The pointers that the rebuilding method dereferences.
    ghost predicate CanRebuild()
      reads this
    {
      hasWindow ==> device.Some? && context.Some? && (swapChain.None? ==> hasFactory)
    }

    constructor (minFeatureLevel: nat, hasDepthBuffer: bool, releaseBuild: bool, allowTearing: bool)
      ensures Coherent() && NoneDependent() && device.None? && lost == restored == generation == 0
      ensures asked == []
    {
      this.minFeatureLevel, this.hasDepthBuffer, this.releaseBuild := minFeatureLevel, hasDepthBuffer, releaseBuild;
      this.allowTearing := allowTearing;
      hasWindow, hasNotify, hasFactory := false, false, false;
      width, height, viewport := 1, 1, (0, 0);
      device, context, annotation, swapChain := None, None, None, None;
      renderTarget, renderTargetView, depthStencil, depthStencilView := None, None, None, None;
      generation, lost, restored := 0, 0, 0;
      asked := [];
    }

    // A call to the driver; the caller's own part of the trace begins at `from`.
    method AskDriver(call: DriverCall, ghost from: nat) returns (hr: HResult)
      requires from <= |asked|
      modifies this`asked
      ensures asked == old(asked) + [Asked(call, hr)] && asked[|old(asked)|] == Asked(call, hr)
      ensures NoFatal(from) <==> old(NoFatal(from)) && Tolerated(Asked(call, hr), releaseBuild)
      ensures MadeIn(asked, from, call) && forall c :: MadeIn(old(asked), from, c) ==> MadeIn(asked, from, c)
    {
      hr := *;
      asked := asked + [Asked(call, hr)];
      JoinTraces(old(asked), asked, from, releaseBuild);
    }

    // A failed creation leaves no factory behind.
    method CreateFactory() returns (exit: Exit)
      modifies this`hasFactory, this`asked
      ensures exit == Returned <==> hasFactory
      ensures old(asked) <= asked && |asked| == |old(asked)| + 1 && Made(|old(asked)|, MakeFactory)
      ensures exit == Returned <==> NoFatal(|old(asked)|)
    {
      NoAnswer(asked, releaseBuild);
      hide NoFatalIn, MadeIn;
      hasFactory := false;
      var hr := AskDriver(MakeFactory, |old(asked)|);
      if !Succeeded(hr) {
        return Threw;
      }
      hasFactory := true;
      return Returned;
    }

    // How many of the feature levels are not below the minimum.
    method FeatureLevelCount() returns (n: nat)
      ensures n <= |FEATURE_LEVELS|
      ensures forall i :: 0 <= i < |FEATURE_LEVELS| ==> (i < n <==> minFeatureLevel <= FEATURE_LEVELS[i])
    {
      n := 0;
      while n < |FEATURE_LEVELS|
        invariant n <= |FEATURE_LEVELS|
        invariant forall i :: 0 <= i < n ==> minFeatureLevel <= FEATURE_LEVELS[i]
      {
        if FEATURE_LEVELS[n] < minFeatureLevel {
          break;
        }
        n := n + 1;
      }
    }

    // Finds an adapter and makes a device on it, or in a debug build a software device.
    method MakeDevice() returns (exit: Exit)
      modifies this`asked
      ensures old(asked) <= asked
      ensures exit == Returned <==> LevelOk() && NoFatal(|old(asked)|)
      ensures exit == Returned ==>
                && |asked| > |old(asked)| + 1 && asked[|old(asked)|].call == FindAdapter
                && Made(|old(asked)|, FindAdapter)
                && (asked[|old(asked)|].answer == S_OK <==> asked[|old(asked)| + 1].call == HardwareDevice)
                && asked[|asked| - 1] in {Asked(HardwareDevice, S_OK), Asked(SoftwareDevice, S_OK)}
    {
      NoAnswer(asked, releaseBuild);
      hide NoFatalIn, MadeIn;
      var featLevelCount := FeatureLevelCount();
      assert LevelOk() <==> minFeatureLevel <= FEATURE_LEVELS[0];
      if featLevelCount == 0 {
        return Threw;
      }
      // Enumerating the adapters may find one, find none, or fail.
      var enumerated := AskDriver(FindAdapter, |old(asked)|);
      if enumerated != S_OK && enumerated != NOT_FOUND {
        return Threw;
      }
      var hr := E_FAIL;
      if enumerated == S_OK {
        hr := AskDriver(HardwareDevice, |old(asked)|);
      } else if releaseBuild {
        return Threw;
      }
      if !releaseBuild && !Succeeded(hr) {
        hr := AskDriver(SoftwareDevice, |old(asked)|);
      }
      return if Succeeded(hr) then Returned else Threw;
    }

    // A new device with its context.  Handles made from an older device are left alone, so
    // the result is free of them exactly when there were none.
    method CreateDeviceResources() returns (exit: Exit)
      modifies this`hasFactory, this`allowTearing, this`device, this`context, this`annotation, this`generation
      modifies this`asked
      ensures old(asked) <= asked
      ensures exit == Returned <==> LevelOk() && NoFatal(|old(asked)|)
      ensures exit == Returned ==> MadeNewDevice(|old(asked)|)
      ensures !old(allowTearing) ==> !allowTearing
      ensures old(allowTearing) && exit == Returned ==>
                && |asked| > |old(asked)| + 1 && asked[|old(asked)| + 1].call == TearingSupport
                && (allowTearing <==> asked[|old(asked)| + 1].answer == S_OK)
      ensures old(generation) <= generation <= old(generation) + 1
      ensures generation == old(generation) ==>
                device == old(device) && context == old(context) && annotation == old(annotation)
      ensures exit == Returned ==>
                && hasFactory && device == context == annotation == Some(generation)
                && generation == old(generation) + 1
      ensures old(Coherent()) && exit == Returned ==> (Coherent() <==> old(NoneDependent()))
      ensures old(device.None? && context.None? && annotation.None?) ==> DeviceCurrent()
    {
      NoAnswer(asked, releaseBuild);
      hide NoFatalIn, MadeIn;
      exit := CreateFactory();
      if exit == Threw {
        return;
      }
      if allowTearing {
        var hr := AskDriver(TearingSupport, |old(asked)|);
        allowTearing := Succeeded(hr);
      }
      ghost var made := asked;
      exit := MakeDevice();
      JoinTraces(made, asked, |old(asked)|, releaseBuild);
      if exit == Threw {
        return;
      }
      made := asked;
      exit := AdoptDevice();
      JoinTraces(made, asked, |old(asked)|, releaseBuild);
    }

    // The new device, its context and its annotation interface are stored one by one.
    method AdoptDevice() returns (exit: Exit)
      modifies this`device, this`context, this`annotation, this`generation, this`asked
      ensures generation == old(generation) + 1
      ensures exit == Returned ==> device == context == annotation == Some(generation)
      ensures old(device.None? && context.None? && annotation.None?) ==> DeviceCurrent()
      ensures old(asked) <= asked
      ensures exit == Returned <==> NoFatal(|old(asked)|)
      ensures exit == Returned ==> Made(|old(asked)|, DeviceInterface) && Made(|old(asked)|, ContextInterface)
      ensures exit == Returned ==> Made(|old(asked)|, AnnotationInterface)
    {
      NoAnswer(asked, releaseBuild);
      hide NoFatalIn, MadeIn;
      generation := generation + 1;
      device := None;
      var hr := AskDriver(DeviceInterface, |old(asked)|);
      if !Succeeded(hr) {
        return Threw;
      }
      device := Some(generation);
      context := None;
      hr := AskDriver(ContextInterface, |old(asked)|);
      if !Succeeded(hr) {
        return Threw;
      }
      context := Some(generation);
      annotation := None;
      hr := AskDriver(AnnotationInterface, |old(asked)|);
      if !Succeeded(hr) {
        return Threw;
      }
      annotation := Some(generation);
      return Returned;
    }

    method UpdateColorSpace() returns (exit: Exit)
      modifies this`hasFactory, this`asked
      ensures exit == Returned ==> hasFactory == old(hasFactory)
      ensures old(asked) <= asked
      ensures exit == Returned <==> NoFatal(|old(asked)|)
      ensures !old(hasFactory) ==> asked == old(asked) && exit == Returned
      ensures old(hasFactory) && exit == Returned ==>
                && |asked| > |old(asked)| && asked[|old(asked)|].call == FactoryCurrent
                && (asked[|old(asked)|].answer != S_OK ==> Made(|old(asked)|, MakeFactory))
                && Made(|old(asked)|, ColorSpace)
    {
      NoAnswer(asked, releaseBuild);
      hide NoFatalIn, MadeIn;
      if !hasFactory {
        return Returned;
      }
      var isCurrent := AskDriver(FactoryCurrent, |old(asked)|);
      if !Succeeded(isCurrent) {
        ghost var made := asked;
        exit := CreateFactory();
        JoinTraces(made, asked, |old(asked)|, releaseBuild);
        if exit == Threw {
          return;
        }
      }
      // The window rectangle, the output descriptions and the colour space call may fail.
      var hr := AskDriver(ColorSpace, |old(asked)|);
      return if Succeeded(hr) then Returned else Threw;
    }

    // A swap chain for the window, made from the current device.
    method CreateSwapChain() returns (exit: Exit)
      requires device.Some? && hasFactory
      modifies this`swapChain, this`asked
      ensures swapChain.None? || swapChain == device
      ensures exit == Returned ==> swapChain == device
      ensures old(asked) <= asked
      ensures exit == Returned <==> NoFatal(|old(asked)|)
      ensures exit == Returned ==> MadeSwapChain(|old(asked)|)
    {
      NoAnswer(asked, releaseBuild);
      hide NoFatalIn, MadeIn;
      swapChain := None;
      var hr := AskDriver(MakeSwapChain, |old(asked)|);
      if !Succeeded(hr) {
        return Threw;
      }
      swapChain := device;
      hr := AskDriver(WindowAssociation, |old(asked)|);
      return if Succeeded(hr) then Returned else Threw;
    }

    // The views of the back buffer and, if wanted, of a depth buffer.
    method CreateViews() returns (exit: Exit)
      requires device.Some? && swapChain.Some?
      requires renderTarget.None? && renderTargetView.None? && depthStencil.None? && depthStencilView.None?
      modifies this`renderTarget, this`renderTargetView, this`depthStencil, this`depthStencilView, this`asked
      ensures renderTarget.None? || renderTarget == swapChain
      ensures renderTargetView.None? || renderTargetView == device
      ensures depthStencil.None? || depthStencil == device
      ensures depthStencilView.None? || depthStencilView == device
      ensures exit == Returned ==>
                && renderTarget == swapChain && renderTargetView == device
                && depthStencil == depthStencilView == (if hasDepthBuffer then device else None)
      ensures old(asked) <= asked
      ensures exit == Returned <==> NoFatal(|old(asked)|)
      ensures exit == Returned ==> MadeViews(|old(asked)|)
    {
      NoAnswer(asked, releaseBuild);
      hide NoFatalIn, MadeIn;
      var hr := AskDriver(GetBuffer, |old(asked)|);
      if !Succeeded(hr) {
        return Threw;
      }
      renderTarget := swapChain;
      hr := AskDriver(MakeTargetView, |old(asked)|);
      if !Succeeded(hr) {
        return Threw;
      }
      renderTargetView := device;
      if hasDepthBuffer {
        hr := AskDriver(MakeDepthBuffer, |old(asked)|);
        if !Succeeded(hr) {
          return Threw;
        }
        depthStencil := device;
        hr := AskDriver(MakeDepthView, |old(asked)|);
        if !Succeeded(hr) {
          return Threw;
        }
        depthStencilView := device;
      }
      return Returned;
    }

    method ReleaseViews()
      modifies this`renderTarget, this`renderTargetView, this`depthStencil, this`depthStencilView
      ensures renderTarget.None? && renderTargetView.None? && depthStencil.None? && depthStencilView.None?
    {
      renderTargetView := None;
      depthStencilView := None;
      renderTarget := None;
      depthStencil := None;
    }

    method ReleaseDevice()
      modifies this`swapChain, this`context, this`annotation, this`device, this`hasFactory
      modifies this`renderTarget, this`renderTargetView, this`depthStencil, this`depthStencilView
      ensures NoneDependent() && device.None? && context.None? && annotation.None? && !hasFactory
      ensures Coherent()
    {
      depthStencilView := None;
      renderTargetView := None;
      renderTarget := None;
      depthStencil := None;
      swapChain := None;
      context := None;
      annotation := None;
      device := None;
      hasFactory := false;
    }

    // Rebuilds what depends on the window size.  If the swap chain reports a lost device
    // the recovery runs once, and comes back here with no swap chain.
    // `reported` tells whether it did.
    method CreateWindowSizeDependentResources() returns (exit: Exit, reported: bool)
      requires Coherent() && CanRebuild()
      modifies this
      ensures Coherent()
      ensures old(asked) <= asked
      ensures exit == Returned <==> hasWindow && (reported ==> LevelOk()) && NoFatal(|old(asked)|)
      ensures !hasWindow ==> asked == old(asked) && Handles() == old(Handles())
      ensures hasWindow && old(swapChain).Some? ==>
                && |asked| > |old(asked)| && asked[|old(asked)|].call == ResizeBuffers
                && (reported <==> asked[|old(asked)|].answer in {DEVICE_REMOVED, DEVICE_RESET})
      ensures !hasWindow || old(swapChain).None? ==> !reported
      ensures reported ==>
                && NewerThan(old(generation)) && lost == old(lost) + (if hasNotify then 1 else 0)
                && old(generation) <= generation <= old(generation) + 1
                && (exit == Returned ==> generation == old(generation) + 1 && MadeNewDevice(|old(asked)|))
      ensures !reported ==>
                && generation == old(generation) && lost == old(lost) && device == old(device)
                && context == old(context) && annotation == old(annotation)
                && (old(swapChain).Some? ==> swapChain == old(swapChain))
      ensures exit == Returned ==> Complete() && MadeViews(|old(asked)|)
      ensures exit == Returned && (reported || old(hasFactory)) ==> Made(|old(asked)|, ColorSpace)
      ensures exit == Returned && (reported || old(swapChain).None?) ==>
                MadeSwapChain(|old(asked)|)
      ensures hasWindow == old(hasWindow) && hasNotify == old(hasNotify)
      ensures width == old(width) && height == old(height)
      ensures restored == if exit == Returned then old(restored) + (lost - old(lost)) else old(restored)
      decreases if swapChain.Some? then 4 else 1
    {
      NoAnswer(asked, releaseBuild);
      hide U32, Max, NoFatalIn, MadeIn, MadeViewsIn, MadeSwapChainIn, MadeDeviceIn, NewerThan;
      if !hasWindow {
        return Threw, false;
      }
      ReleaseViews();
      exit, reported := PrepareSwapChain();
      if exit == Threw || reported {
        return;
      }
      ghost var made := asked;
      exit := ShowOn();
      JoinTraces(made, asked, |old(asked)|, releaseBuild);
    }

    // A swap chain of the current device: the old one resized, a new one, or, when the resize
    // reports a lost device, everything anew.
    method PrepareSwapChain() returns (exit: Exit, reported: bool)
      requires Coherent() && CanRebuild() && hasWindow
      requires renderTarget.None? && renderTargetView.None? && depthStencil.None? && depthStencilView.None?
      modifies this
      ensures Coherent()
      ensures old(asked) <= asked
      ensures exit == Returned <==> (reported ==> LevelOk()) && NoFatal(|old(asked)|)
      ensures old(swapChain).Some? ==>
                && |asked| > |old(asked)| && asked[|old(asked)|].call == ResizeBuffers
                && (reported <==> asked[|old(asked)|].answer in {DEVICE_REMOVED, DEVICE_RESET})
      ensures old(swapChain).None? ==> !reported
      ensures reported ==>
                && NewerThan(old(generation)) && lost == old(lost) + (if hasNotify then 1 else 0)
                && old(generation) <= generation <= old(generation) + 1
                && restored == (if exit == Returned then old(restored) + (lost - old(lost)) else old(restored))
      ensures !reported ==> hasFactory == old(hasFactory)
      ensures reported && exit == Returned ==>
                && generation == old(generation) + 1 && Complete() && Made(|old(asked)|, ColorSpace)
                && MadeNewDevice(|old(asked)|) && MadeViews(|old(asked)|) && MadeSwapChain(|old(asked)|)
      ensures !reported ==>
                && generation == old(generation) && lost == old(lost) && restored == old(restored)
                && device == old(device) && context == old(context) && annotation == old(annotation)
                && renderTarget.None? && renderTargetView.None? && depthStencil.None? && depthStencilView.None?
                && (old(swapChain).Some? ==> swapChain == old(swapChain))
      ensures !reported && exit == Returned ==>
                swapChain == device && (old(swapChain).None? ==> MadeSwapChain(|old(asked)|))
      ensures hasWindow && hasNotify == old(hasNotify) && width == old(width) && height == old(height)
      decreases if swapChain.Some? then 3 else 0
    {
      NoAnswer(asked, releaseBuild);
      hide U32, Max, NoFatalIn, MadeIn, MadeViewsIn, MadeSwapChainIn, MadeDeviceIn, NewerThan, Complete;
      reported := false;
      if swapChain.None? {
        exit := CreateSwapChain();
        return;
      }
      var hr := AskDriver(ResizeBuffers, |old(asked)|);
      reported := DeviceLost(hr);
      if reported {
        ghost var made := asked;
        exit := HandleDeviceLost();
        JoinTraces(made, asked, |old(asked)|, releaseBuild);
      } else {
        exit := if Succeeded(hr) then Returned else Threw;
      }
    }

    // The colour space, the views and the viewport for a swap chain of the current device.
    method ShowOn() returns (exit: Exit)
      requires device.Some? && swapChain == device
      requires renderTarget.None? && renderTargetView.None? && depthStencil.None? && depthStencilView.None?
      modifies this`hasFactory, this`viewport, this`asked
      modifies this`renderTarget, this`renderTargetView, this`depthStencil, this`depthStencilView
      ensures (renderTarget.None? || renderTarget == device) && (renderTargetView.None? || renderTargetView == device)
      ensures (depthStencil.None? || depthStencil == device) && (depthStencilView.None? || depthStencilView == device)
      ensures old(asked) <= asked
      ensures exit == Returned <==> NoFatal(|old(asked)|)
      ensures exit == Returned ==>
                && renderTarget == renderTargetView == device
                && depthStencil == depthStencilView == (if hasDepthBuffer then device else None)
                && viewport == (Max(U32(width), 1), Max(U32(height), 1))
                && MadeViews(|old(asked)|) && (old(hasFactory) ==> Made(|old(asked)|, ColorSpace))
    {
      hide U32, NoFatalIn, MadeIn, MadeViewsIn;
      var backBufferWidth := Max(U32(width), 1);
      var backBufferHeight := Max(U32(height), 1);
      exit := UpdateColorSpace();
      if exit == Threw {
        return;
      }
      ghost var made := asked;
      exit := CreateViews();
      JoinTraces(made, asked, |old(asked)|, releaseBuild);
      if exit == Threw {
        return;
      }
      viewport := (backBufferWidth, backBufferHeight);
    }

    // Whatever is held, the old device goes and a new one is set up, or an exception leaves
    // nothing of the old device behind.
    method HandleDeviceLost() returns (exit: Exit)
      modifies this
      ensures Coherent() && NewerThan(old(generation))
      ensures old(asked) <= asked
      ensures exit == Returned <==> hasWindow && LevelOk() && NoFatal(|old(asked)|)
      ensures generation == old(generation) ==>
                NoneDependent() && device.None? && context.None? && annotation.None?
      ensures hasWindow == old(hasWindow) && hasNotify == old(hasNotify)
      ensures width == old(width) && height == old(height)
      ensures exit == Returned ==> Complete() && generation == old(generation) + 1
      ensures exit == Returned ==>
                && MadeNewDevice(|old(asked)|) && MadeViews(|old(asked)|)
                && MadeSwapChain(|old(asked)|) && Made(|old(asked)|, ColorSpace)
      ensures old(generation) <= generation <= old(generation) + 1
      ensures lost == old(lost) + (if hasNotify then 1 else 0)
      ensures restored == if exit == Returned then old(restored) + (lost - old(lost)) else old(restored)
      decreases 2
    {
      hide U32, Max, NoFatalIn, MadeIn, MadeViewsIn, MadeSwapChainIn, MadeDeviceIn;
      if hasNotify {
        lost := lost + 1;
      }
      ReleaseDevice();

      exit := CreateDeviceResources();
      if exit == Threw {
        return;
      }
      var again;
      ghost var made := asked;
      exit, again := CreateWindowSizeDependentResources();
      JoinTraces(made, asked, |old(asked)|, releaseBuild);
      if exit == Threw {
        return;
      }
      if hasNotify {
        restored := restored + 1;
      }
    }

    method SetWindow(w: int, h: int)
      modifies this`hasWindow, this`width, this`height
      ensures hasWindow && width == w && height == h
    {
      hasWindow := true;
      width, height := w, h;
    }

    // Every size change rebuilds, or ends with an exception that a driver answer explains.
    method WindowSizeChanged(w: int, h: int) returns (changed: bool, exit: Exit, ghost reported: bool)
      requires Coherent() && CanRebuild()
      modifies this
      ensures Coherent()
      ensures changed <==> w != old(width) || h != old(height)
      ensures width == w && height == h
      ensures old(asked) <= asked
      ensures exit == Returned <==>
                (changed ==> hasWindow) && (reported ==> LevelOk()) && NoFatal(|old(asked)|)
      ensures !changed ==> !reported && Handles() == old(Handles())
      ensures exit == Returned && old(hasFactory) ==> Made(|old(asked)|, ColorSpace)
      ensures changed && hasWindow && old(swapChain).Some? ==>
                && |asked| > |old(asked)| && asked[|old(asked)|].call == ResizeBuffers
                && (reported <==> asked[|old(asked)|].answer in {DEVICE_REMOVED, DEVICE_RESET})
      ensures reported ==>
                NewerThan(old(generation)) && (exit == Returned ==> generation == old(generation) + 1)
      ensures !reported ==> generation == old(generation) && lost == old(lost)
      ensures changed && exit == Returned ==> Complete() && MadeViews(|old(asked)|)
      ensures exit == Returned ==> lost - old(lost) == restored - old(restored)
    {
      reported := false;
      if width == w && height == h {
        exit := UpdateColorSpace();
        return false, exit, false;
      }
      width, height := w, h;
      exit, reported := CreateWindowSizeDependentResources();
      changed := true;
    }

    // The first answer is that to the presentation: the two codes of a lost device, and no
    // other answer, bring the recovery; a failure throws and leaves everything as it was.
    method Present() returns (exit: Exit, ghost reported: bool)
      requires Coherent() && swapChain.Some? && context.Some? && hasFactory
      modifies this
      ensures Coherent()
      ensures old(asked) <= asked && |asked| > |old(asked)| && asked[|old(asked)|].call == PresentFrame
      ensures reported <==> asked[|old(asked)|].answer in {DEVICE_REMOVED, DEVICE_RESET}
      ensures exit == Returned <==> (reported ==> hasWindow && LevelOk()) && NoFatal(|old(asked)|)
      ensures reported ==>
                && NewerThan(old(generation)) && lost == old(lost) + (if hasNotify then 1 else 0)
                && (exit == Returned ==>
                      && Complete() && generation == old(generation) + 1
                      && MadeNewDevice(|old(asked)|) && MadeViews(|old(asked)|))
      ensures !reported ==>
                && Handles() == old(Handles()) && generation == old(generation)
                && lost == old(lost) && restored == old(restored) && viewport == old(viewport)
      ensures !reported && exit == Returned ==>
                && |asked| > |old(asked)| + 1 && asked[|old(asked)| + 1].call == FactoryCurrent
                && (asked[|old(asked)| + 1].answer != S_OK ==> Made(|old(asked)|, ColorSpace))
      ensures width == old(width) && height == old(height)
      ensures exit == Returned ==> lost - old(lost) == restored - old(restored)
      ensures generation <= old(generation) + 1
    {
      NoAnswer(asked, releaseBuild);
      hide NoFatalIn, MadeIn;
      var hr := AskDriver(PresentFrame, |old(asked)|);
      ghost var made := asked;
      reported := DeviceLost(hr);
      if DeviceLost(hr) {
        exit := HandleDeviceLost();
      } else if !Succeeded(hr) {
        exit := Threw;
      } else {
        exit := Returned;
        var isCurrent := AskDriver(FactoryCurrent, |old(asked)|);
        made := asked;
        if !Succeeded(isCurrent) {
          exit := UpdateColorSpace();
        }
      }
      JoinTraces(made, asked, |old(asked)|, releaseBuild);
    }
  }
}
