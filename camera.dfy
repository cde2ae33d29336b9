/**
 * The camera manager: the single owner of the camera device. It keeps an
 * "active" flag and the device handle, and every operation runs as one
 * atomic step (app.py's lock). The camera hardware is abstract: the
 * caller supplies what the device does on each call (the handle it opens,
 * whether a step raises, the frame it captures), and a ghost log records
 * the device operations issued, in order.
 */
module Camera {
  import opened Wrappers

  newtype Byte = b: int | 0 <= b < 256

  /** A raw image as the device's capture_array delivers it. */
  datatype Frame = Frame(pixels: seq<Byte>)

  /** Keyword arguments for the preview configuration. */
  type Settings = map<string, string>

  datatype Preview = DefaultPreview | CustomPreview(settings: Settings)

  /** An open device handle: the configuration applied to it, if any, and whether it runs. */
  datatype Device = Device(serial: nat, preview: Option<Preview>, running: bool)

  /** The device step of start that raises. */
  datatype StartFault = OpenFails | ConfigureFails | RunFails

  /** The device step of stop that raises. */
  datatype StopFault = HaltFails | CloseFails

  /** What a call returned, or the device fault it raised. */
  datatype Reply<F> = Returned(changed: bool) | Raised(fault: F)

  /** The operations the manager issues to the hardware. */
  datatype DeviceCall =
    | Open(serial: nat)
    | Configure(serial: nat, preview: Preview)
    | Run(serial: nat)
    | Halt(serial: nat)
    | Close(serial: nat)
    | ReadArray(serial: nat)
    | WriteFile(serial: nat, path: string)

  /**
   * The configuration start applies: the given settings when they are
   * present and non-empty (Python's truth test on a dict), the device
   * default otherwise.
   */
  function PreviewFor(config: Option<Settings>): Preview
  {
    if config.Some? && config.value != map[] then CustomPreview(config.value) else DefaultPreview
  }

  /**
   * The device operations an inactive manager's start issues, up to the one
   * that raises: open is always issued, and a fault cuts the full sequence short.
   */
  function StartCalls(serial: nat, preview: Preview, fault: Option<StartFault>): (cs: seq<DeviceCall>)
    ensures 1 <= |cs| && cs <= [Open(serial), Configure(serial, preview), Run(serial)]
  {
    match fault
    case Some(OpenFails) => [Open(serial)]
    case Some(ConfigureFails) => [Open(serial), Configure(serial, preview)]
    case _ => [Open(serial), Configure(serial, preview), Run(serial)]
  }

  /** The handle an inactive manager's start leaves behind when a device step raises. */
  function FailedHandle(oldCamera: Option<Device>, serial: nat, preview: Preview, fault: StartFault): Option<Device>
  {
    match fault
    case OpenFails => oldCamera
    case ConfigureFails => Some(Device(serial, None, false))
    case RunFails => Some(Device(serial, Some(preview), false))
  }

  class CameraManager {
    var isActive: bool
    var camera: Option<Device>
    /** The device operations issued so far, oldest first. */
    ghost var calls: seq<DeviceCall>

    /** An active manager always holds a handle; the converse need not hold. */
    ghost predicate Valid()
      reads this
    {
      isActive ==> camera.Some?
    }

    constructor ()
      ensures Valid()
      ensures !isActive && camera == None && calls == []
    {
      isActive := false;
      camera := None;
      calls := [];
    }

    /**
     * Opens, configures and runs a new device when inactive; does nothing
     * and returns false when already active. A raising device step aborts
     * start with the manager left inactive, holding whatever handle was
     * assigned before the fault.
     */
    method Start(config: Option<Settings>, serial: nat, fault: Option<StartFault>) returns (r: Reply<StartFault>)
      requires Valid()
      modifies this
      ensures Valid()
      ensures old(isActive) ==>
        r == Returned(false) && isActive && camera == old(camera) && calls == old(calls)
      ensures !old(isActive) ==> calls == old(calls) + StartCalls(serial, PreviewFor(config), fault)
      ensures !old(isActive) && fault.None? ==>
        r == Returned(true) && isActive && camera == Some(Device(serial, Some(PreviewFor(config)), true))
      ensures !old(isActive) && fault.Some? ==>
        r == Raised(fault.value) && !isActive &&
        camera == FailedHandle(old(camera), serial, PreviewFor(config), fault.value)
    {
      if isActive {
        return Returned(false);
      }
      calls := calls + [Open(serial)];
      if fault == Some(OpenFails) {
        return Raised(OpenFails);
      }
      camera := Some(Device(serial, None, false));
      var preview := PreviewFor(config);
      calls := calls + [Configure(serial, preview)];
      if fault == Some(ConfigureFails) {
        return Raised(ConfigureFails);
      }
      camera := Some(Device(serial, Some(preview), false));
      calls := calls + [Run(serial)];
      if fault == Some(RunFails) {
        return Raised(RunFails);
      }
      camera := Some(Device(serial, Some(preview), true));
      isActive := true;
      r := Returned(true);
    }

    /**
     * Halts and closes the device and drops the handle when active; does
     * nothing and returns false when inactive (even if a handle is left
     * over from a failed start).
     */
    method Stop(fault: Option<StopFault>) returns (r: Reply<StopFault>)
      requires Valid()
      modifies this
      ensures Valid()
      ensures !old(isActive) ==>
        r == Returned(false) && !isActive && camera == old(camera) && calls == old(calls)
      ensures old(isActive) && fault.None? ==>
        r == Returned(true) && !isActive && camera == None &&
        calls == old(calls) + [Halt(old(camera).value.serial), Close(old(camera).value.serial)]
      ensures old(isActive) && fault == Some(HaltFails) ==>
        r == Raised(HaltFails) && isActive && camera == old(camera) &&
        calls == old(calls) + [Halt(old(camera).value.serial)]
      ensures old(isActive) && fault == Some(CloseFails) ==>
        r == Raised(CloseFails) && isActive && camera == Some(old(camera).value.(running := false)) &&
        calls == old(calls) + [Halt(old(camera).value.serial), Close(old(camera).value.serial)]
    {
      if !isActive {
        return Returned(false);
      }
      var device := camera.value;
      calls := calls + [Halt(device.serial)];
      if fault == Some(HaltFails) {
        return Raised(HaltFails);
      }
      camera := Some(device.(running := false));
      calls := calls + [Close(device.serial)];
      if fault == Some(CloseFails) {
        return Raised(CloseFails);
      }
      isActive := false;
      camera := None;
      r := Returned(true);
    }

    /**
     * The frame the device captures (shot) when active; absence when
     * inactive, without touching the device.
     */
    method GetFrame(shot: Frame) returns (f: Option<Frame>)
      requires Valid()
      modifies this`calls
      ensures f.None? <==> !isActive
      ensures isActive ==> f == Some(shot) && calls == old(calls) + [ReadArray(camera.value.serial)]
      ensures !isActive ==> calls == old(calls)
      ensures isActive == old(isActive) && camera == old(camera)
    {
      if isActive {
        calls := calls + [ReadArray(camera.value.serial)];
        return Some(shot);
      }
      f := None;
    }

    /** Asks the device to write its current image to path when active; a no-op when inactive. */
    method CaptureFile(path: string)
      requires Valid()
      modifies this`calls
      ensures isActive ==> calls == old(calls) + [WriteFile(camera.value.serial, path)]
      ensures !isActive ==> calls == old(calls)
      ensures isActive == old(isActive) && camera == old(camera)
    {
      if isActive {
        calls := calls + [WriteFile(camera.value.serial, path)];
      }
    }
  }

  /**
   * Two starts without a stop between them open the device once: the
   * second start returns false and keeps the handle the first one opened.
   */
  method StartTwice(m: CameraManager, config: Option<Settings>, first: nat, second: nat)
    returns (r1: Reply<StartFault>, r2: Reply<StartFault>)
    requires m.Valid() && !m.isActive
    modifies m
    ensures m.Valid() && m.isActive
    ensures r1 == Returned(true) && r2 == Returned(false)
    ensures m.camera == Some(Device(first, Some(PreviewFor(config)), true))
    ensures m.calls == old(m.calls) + [Open(first), Configure(first, PreviewFor(config)), Run(first)]
  {
    r1 := m.Start(config, first, None);
    r2 := m.Start(config, second, None);
  }

  /** Number of frames before the first absent one. */
  function AvailableFrames(s: seq<Option<Frame>>): (n: nat)
    ensures n <= |s|
  {
    if s == [] || s[0].None? then 0 else 1 + AvailableFrames(s[1..])
  }

  /** AvailableFrames(s) is the index of the first absence, or |s| when there is none. */
  lemma {:induction false} AvailableFramesIsFirstAbsence(s: seq<Option<Frame>>)
    ensures forall j :: 0 <= j < AvailableFrames(s) ==> s[j].Some?
    ensures AvailableFrames(s) < |s| ==> s[AvailableFrames(s)].None?
  {
    if s != [] && s[0].Some? {
      AvailableFramesIsFirstAbsence(s[1..]);
      forall j | 0 <= j < AvailableFrames(s)
        ensures s[j].Some?
      {
        if j > 0 {
          assert s[j] == s[1..][j - 1];
        }
      }
    }
  }

  /** Conversely, a k with all frames before it present and an absence (or the end) at it is AvailableFrames(s). */
  lemma {:induction false} AvailableFramesExact(s: seq<Option<Frame>>, k: nat)
    requires k <= |s|
    requires forall j :: 0 <= j < k ==> s[j].Some?
    requires k == |s| || s[k].None?
    ensures AvailableFrames(s) == k
  {
    if k > 0 {
      assert s[0].Some?;
      forall j | 0 <= j < k - 1
        ensures s[1..][j].Some?
      {
        assert s[1..][j] == s[j + 1];
      }
      AvailableFramesExact(s[1..], k - 1);
    }
  }
}
