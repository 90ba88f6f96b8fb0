/**
 * The device handle of src/irda.c (`struct irda`) with its lifecycle and the
 * two connect entry points. OS calls (`socket`, `close`, `connect`) are
 * replaced by their results, passed in as parameters.
 */
module Irda {
  import opened Types
  import opened Packing
  import opened ServiceName

  /** The platform the library is built for; it selects the peer-address layout. */
  datatype Platform = Windows | Linux

  /** The peer address handed to `connect`: `SOCKADDR_IRDA` on Windows, `sockaddr_irda` on Linux. */
  datatype Peer =
    | WindowsPeer(deviceId: DeviceId, serviceName: seq<char>)
    | LinuxPeer(addr: u32, lsapSel: byte, name: seq<char>)

  /** The device address a peer structure designates. */
  function PeerAddress(p: Peer): u32
  {
    match p
    case WindowsPeer(id, _) => AssembleAddress(id)
    case LinuxPeer(addr, _, _) => addr
  }

  /** The 25-byte service-name field of a peer structure. */
  function PeerServiceName(p: Peer): seq<char>
  {
    match p
    case WindowsPeer(_, name) => name
    case LinuxPeer(_, _, name) => name
  }

  /** The peer structure `irda_socket_connect_name` builds (its LSAP selector stays zero on Linux). */
  function NamePeer(platform: Platform, address: u32, name: Option<seq<char>>): Peer
  {
    match platform
    case Windows => WindowsPeer(SplitAddress(address), NameField(name))
    case Linux => LinuxPeer(address, 0, NameField(name))
  }

  /**
   * The peer structure `irda_socket_connect_lsap` builds. The Linux selector
   * field `sir_lsap_sel` is 8 bits wide, so the assignment keeps `lsap % 256`.
   */
  function LsapPeer(platform: Platform, address: u32, lsap: u32): Peer
  {
    match platform
    case Windows => WindowsPeer(SplitAddress(address), LsapField(lsap))
    case Linux => LinuxPeer(address, lsap % 0x100, Zeros(FieldSize))
  }

  /**
   * Connecting by name addresses the requested device on both platforms and
   * carries the strncpy-filled (or zeroed) name field.
   */
  lemma NamePeerAddresses(platform: Platform, address: u32, name: Option<seq<char>>)
    ensures PeerAddress(NamePeer(platform, address, name)) == address
    ensures PeerServiceName(NamePeer(platform, address, name)) == NameField(name)
    ensures NamePeer(platform, address, name).LinuxPeer? ==> NamePeer(platform, address, name).lsapSel == 0
  {
    SplitThenAssemble(address);
  }

  /**
   * Connecting by LSAP addresses the requested device on both platforms. On
   * Linux the selector field holds `lsap` (reduced to its 8 bits) and the
   * name is zeroed; on Windows
   * the name field reads "LSAP-SEL" followed by digits that denote `lsap`.
   */
  lemma LsapPeerAddresses(platform: Platform, address: u32, lsap: u32)
    ensures PeerAddress(LsapPeer(platform, address, lsap)) == address
    ensures platform == Linux ==>
      LsapPeer(platform, address, lsap) == LinuxPeer(address, lsap % 0x100, Zeros(FieldSize))
      && (lsap < 0x100 ==> LsapPeer(platform, address, lsap).lsapSel == lsap)
    ensures platform == Windows ==>
      var f := PeerServiceName(LsapPeer(platform, address, lsap));
      var n := CStringLength(f);
      |LsapPrefix| <= n && f[..|LsapPrefix|] == LsapPrefix
      && IsDigits(f[|LsapPrefix|..n]) && DecimalValue(f[|LsapPrefix|..n]) == lsap
  {
    SplitThenAssemble(address);
    LsapFieldContents(lsap);
  }

  /** `struct irda`: the socket descriptor and the read timeout in milliseconds. */
  class Irda {
    var fd: int
    var timeout: int
    /** Set by `Close`: the C code frees the handle, so it must not be used again. */
    ghost var closed: bool

    /** The handle as `irda_socket_open` initialises it: blocking reads by default. */
    constructor (fd: int)
      ensures this.fd == fd && timeout == -1 && !closed
    {
      this.fd := fd;
      timeout := -1;
      closed := false;
    }
  }

  /**
   * `irda_socket_open`. `hasOut` is false for a NULL output slot,
   * `allocates` is false when malloc fails, and `socket` is the descriptor
   * the OS returns (never negative), None for INVALID_SOCKET / -1. On every
   * failure nothing is handed out.
   */
  method Open(hasOut: bool, allocates: bool, socket: Option<nat>) returns (rc: int, device: Irda?)
    ensures rc == 0 || rc == -1
    ensures rc == 0 <==> device != null
    ensures rc == 0 <==> hasOut && allocates && socket.Some?
    ensures device != null ==>
      fresh(device) && device.fd == socket.value && device.timeout == -1 && !device.closed
  {
    if !hasOut || !allocates {
      return -1, null;
    }
    if socket.None? {
      return -1, null;
    }
    device := new Irda(socket.value);
    rc := 0;
  }

  /**
   * `irda_socket_close`. `closeResult` is what `close` / `closesocket`
   * returns; the result of the preceding `shutdown` is ignored by the
   * source. The handle is released whether or not closing succeeded.
   */
  method Close(device: Irda?, closeResult: int) returns (rc: int)
    requires device != null ==> !device.closed
    modifies device
    ensures device == null ==> rc == -1
    ensures device != null ==> device.closed && (rc == 0 <==> closeResult == 0) && (rc == 0 || rc == -1)
    ensures device != null ==> device.fd == old(device.fd) && device.timeout == old(device.timeout)
  {
    if device == null {
      return -1;
    }
    device.closed := true;
    if closeResult != 0 {
      return -1;
    }
    rc := 0;
  }

  /** `irda_socket_set_timeout`: stores the value as given, without validation. */
  method SetTimeout(device: Irda?, timeout: int) returns (rc: int)
    requires device != null ==> !device.closed
    modifies device
    ensures device == null ==> rc == -1
    ensures device != null ==> rc == 0 && device.timeout == timeout
    ensures device != null ==> device.fd == old(device.fd) && device.closed == old(device.closed)
  {
    if device == null {
      return -1;
    }
    device.timeout := timeout;
    rc := 0;
  }

  /**
   * `irda_socket_connect_name`. `connect` gives the OS result of connecting
   * to a peer structure; any non-zero result is a failure.
   */
  method ConnectName(device: Irda?, platform: Platform, address: u32, name: Option<seq<char>>,
                     connect: Peer -> int) returns (rc: int)
    requires device != null ==> !device.closed
    ensures device == null ==> rc == -1
    ensures device != null ==> (rc == 0 <==> connect(NamePeer(platform, address, name)) == 0)
    ensures rc == 0 || rc == -1
  {
    if device == null {
      return -1;
    }
    var peer := NamePeer(platform, address, name);
    if connect(peer) != 0 {
      return -1;
    }
    rc := 0;
  }

  /** `irda_socket_connect_lsap`, with the same failure rules as `ConnectName`. */
  method ConnectLsap(device: Irda?, platform: Platform, address: u32, lsap: u32,
                     connect: Peer -> int) returns (rc: int)
    requires device != null ==> !device.closed
    ensures device == null ==> rc == -1
    ensures device != null ==> (rc == 0 <==> connect(LsapPeer(platform, address, lsap)) == 0)
    ensures rc == 0 || rc == -1
  {
    if device == null {
      return -1;
    }
    var peer := LsapPeer(platform, address, lsap);
    if connect(peer) != 0 {
      return -1;
    }
    rc := 0;
  }
}
