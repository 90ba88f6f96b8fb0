/**
 * `irda_socket_discover`: poll the OS device enumeration, retrying while it
 * reports "would block", then report every listed device to the callback in
 * list order. The callback's invocations are returned as the sequence of
 * device records it received.
 */
module Discovery {
  import opened Types
  import opened Packing
  import opened Irda

  /** `DISCOVER_MAX_DEVICES`: the enumeration buffer holds this many entries. */
  const MaxDevices: nat := 16
  /** `DISCOVER_MAX_RETRIES`: retries after the first attempt. */
  const MaxRetries: nat := 4

  /** One entry of the OS device list: `IRDA_DEVICE_INFO` on Windows, `irda_device_info` on Linux. */
  datatype RawDevice =
    | WindowsDevice(deviceId: DeviceId, deviceName: seq<char>, charSet: int, hints1: byte, hints2: byte)
    | LinuxDevice(daddr: u32, info: seq<char>, charset: int, hint0: byte, hint1: byte)

  /** The arguments of one callback invocation. */
  datatype DeviceRecord = DeviceRecord(address: u32, name: seq<char>, charset: int, hints: u16)

  /** The callback arguments for one list entry. */
  function Normalise(d: RawDevice): DeviceRecord
  {
    match d
    case WindowsDevice(id, name, charSet, h1, h2) =>
      DeviceRecord(AssembleAddress(id), name, charSet, AssembleHints(h1, h2))
    case LinuxDevice(daddr, info, charset, h0, h1) =>
      DeviceRecord(daddr, info, charset, AssembleHints(h0, h1))
  }

  /**
   * Nothing of an entry is lost: on Windows the reported address splits back
   * into the entry's four identifier bytes (so it can be passed straight to a
   * connect call), on Linux it is the entry's address, and the hints word
   * gives back both hint bytes.
   */
  lemma NormaliseLossless(d: RawDevice)
    ensures d.WindowsDevice? ==>
      SplitAddress(Normalise(d).address) == d.deviceId
      && Normalise(d).hints / 0x100 == d.hints1 && Normalise(d).hints % 0x100 == d.hints2
      && Normalise(d).name == d.deviceName && Normalise(d).charset == d.charSet
    ensures d.LinuxDevice? ==>
      Normalise(d).address == d.daddr
      && Normalise(d).hints / 0x100 == d.hint0 && Normalise(d).hints % 0x100 == d.hint1
      && Normalise(d).name == d.info && Normalise(d).charset == d.charset
  {
    if d.WindowsDevice? {
      AssembleThenSplit(d.deviceId);
    }
  }

  /** What one `getsockopt (IRLMP_ENUMDEVICES)` call reports. */
  datatype Enumeration =
    | Listed(devices: seq<RawDevice>)   // success
    | WouldBlock                        // EAGAIN / WSAEWOULDBLOCK
    | EnumFailed                        // any other error

  /** The outcome of the polling loop, with the calls and sleeps it made. */
  datatype Polling = Polling(outcome: Enumeration, attempts: nat, sleeps: nat)

  /** The polling loop from retry count `n` on; `enumerate(k)` answers the (k+1)-th call. */
  function Poll(enumerate: nat -> Enumeration, n: nat): (p: Polling)
    requires n <= MaxRetries
    ensures n < p.attempts <= MaxRetries + 1 && p.sleeps == p.attempts - 1
    ensures p.outcome == enumerate(p.attempts - 1)
    ensures forall k :: n <= k < p.attempts - 1 ==> enumerate(k) == WouldBlock
    ensures p.outcome == WouldBlock ==> p.attempts == MaxRetries + 1
    decreases MaxRetries - n
  {
    if enumerate(n) == WouldBlock && n < MaxRetries then Poll(enumerate, n + 1)
    else Polling(enumerate(n), n + 1, n)
  }

  /** The callback arguments for a device list, at most `MaxDevices` of them, in list order. */
  function Reported(devices: seq<RawDevice>): (r: seq<DeviceRecord>)
    ensures |r| == if |devices| < MaxDevices then |devices| else MaxDevices
    ensures forall k :: 0 <= k < |r| ==> r[k] == Normalise(devices[k])
  {
    var listed := Take(devices, MaxDevices);
    seq(|listed|, k requires 0 <= k < |listed| => Normalise(listed[k]))
  }

  /** Return code, calls made, sleeps taken and callback invocations of one discovery. */
  datatype DiscoverResult = DiscoverResult(rc: int, attempts: nat, sleeps: nat, reported: seq<DeviceRecord>)

  /** What `irda_socket_discover` does on a valid handle. */
  function DiscoverSpec(enumerate: nat -> Enumeration, hasCallback: bool): DiscoverResult
  {
    var p := Poll(enumerate, 0);
    match p.outcome
    case EnumFailed => DiscoverResult(-1, p.attempts, p.sleeps, [])
    case WouldBlock => DiscoverResult(0, p.attempts, p.sleeps, [])
    case Listed(devices) =>
      DiscoverResult(0, p.attempts, p.sleeps, if hasCallback then Reported(devices) else [])
  }

  /**
   * `irda_socket_discover`. `enumerate(k)` is the answer to the (k+1)-th
   * `getsockopt` call; `hasCallback` is false for a NULL callback.
   */
  method Discover(device: Irda?, enumerate: nat -> Enumeration, hasCallback: bool)
    returns (rc: int, attempts: nat, sleeps: nat, reported: seq<DeviceRecord>)
    requires device != null ==> !device.closed
    ensures device == null ==> rc == -1 && attempts == 0 && sleeps == 0 && reported == []
    ensures device != null ==>
      DiscoverResult(rc, attempts, sleeps, reported) == DiscoverSpec(enumerate, hasCallback)
  {
    if device == null {
      return -1, 0, 0, [];
    }
    var n: nat := 0;
    var e := enumerate(0);
    attempts, sleeps := 1, 0;
    while !e.Listed?
      invariant n <= MaxRetries && attempts == n + 1 && sleeps == n
      invariant e == enumerate(n)
      invariant Poll(enumerate, n) == Poll(enumerate, 0)
      decreases MaxRetries - n
    {
      if e != WouldBlock {
        return -1, attempts, sleeps, [];
      }
      if n >= MaxRetries {
        return 0, attempts, sleeps, [];
      }
      n := n + 1;
      sleeps := sleeps + 1;
      e := enumerate(n);
      attempts := attempts + 1;
    }
    rc, reported := 0, [];
    if hasCallback {
      var listed := Take(e.devices, MaxDevices);
      for i := 0 to |listed|
        invariant |reported| == i
        invariant forall k :: 0 <= k < i ==> reported[k] == Normalise(listed[k])
      {
        reported := reported + [Normalise(listed[i])];
      }
      assert reported == Reported(e.devices);
    }
  }

  /**
   * When every call would block, discovery makes five calls and four sleeps
   * and reports success with no callback invocation.
   */
  lemma DiscoverGivesUp(enumerate: nat -> Enumeration, hasCallback: bool)
    requires forall k :: 0 <= k <= MaxRetries ==> enumerate(k) == WouldBlock
    ensures DiscoverSpec(enumerate, hasCallback) == DiscoverResult(0, MaxRetries + 1, MaxRetries, [])
  {
    var p := Poll(enumerate, 0);
    assert enumerate(p.attempts - 1) == WouldBlock;
  }

  /**
   * When the first `k` calls would block and call `k + 1` answers, discovery
   * stops there after `k` sleeps: it fails on an error and otherwise reports
   * the listed devices in order (at most 16, and only to a non-NULL callback).
   */
  lemma DiscoverFirstAnswer(enumerate: nat -> Enumeration, hasCallback: bool, k: nat)
    requires k <= MaxRetries
    requires forall j :: 0 <= j < k ==> enumerate(j) == WouldBlock
    requires enumerate(k) != WouldBlock
    ensures var d := DiscoverSpec(enumerate, hasCallback);
      d.attempts == k + 1 && d.sleeps == k
      && (d.rc == -1 <==> enumerate(k) == EnumFailed)
      && d.reported == if enumerate(k).Listed? && hasCallback then Reported(enumerate(k).devices) else []
  {
    var p := Poll(enumerate, 0);
    assert p.attempts == k + 1;
  }
}
