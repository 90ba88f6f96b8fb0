# IrDA socket wrapper (libdivecomputer `src/irda.c`) in Dafny

This project models the logic that `src/irda.c` wraps around the operating
system's IrDA socket API: the device handle (`struct irda`) and its
lifecycle, the normalisation of discovery results and peer addresses
between the 32-bit device address and its four bytes, the 25-byte
service-name field (including the `LSAP-SEL<n>` shim used on Windows), the
millisecond-to-`timeval` conversion for reads, the trimming of Windows error
messages, and the three loops: discovery with bounded retries, read with
timeout / end-of-stream / error stops, and write until everything is sent.

Every OS call is replaced by its result, given as a parameter. Calls made
inside a loop are answered by a function of the call number
(`enumerate(k)`, `select(i, deadline)`, `recv(i)`, `send(i, pending)`), so
the model covers every possible sequence of OS answers. The discovery
callback is modelled by the sequence of records it receives.

Modules (one file each):

- `Types` (types.dfy): `byte`, `u16`, `u32`, `Option`, and the helpers `Zeros` and `Take`.
- `Packing` (packing.dfy): the address split and assembly, and the hints word.
- `Timeval` (timeval.dfy): the read deadline.
- `ServiceName` (service_name.dfy): `strncpy`, `%u` and `snprintf` into the 25-byte field.
- `ErrorMessage` (error_message.dfy): the in-place trimming loop of `irda_errmsg`.
- `Irda` (irda.dfy): the handle class, open, close, set-timeout and the two connects.
- `Discovery` (discovery.dfy): `irda_socket_discover`.
- `Transfer` (transfer.dfy): `irda_socket_read` and `irda_socket_write`.

Two details of the code that the model follows exactly:

- Only the Windows branch assembles the discovered address from four
  bytes. On Linux the code passes `daddr` through unchanged
  (src/irda.c:272).
- `strncpy (…, 25)` leaves a service name of 25 or more characters without
  a terminator in the 25-byte field. `ServiceName.NameFieldContents` states
  this.

## Model

| member | source | states |
|---|---|---|
| `Packing.SplitAddress` | src/irda.c:294-297 | the four device-ID bytes of an address, most significant first, as `(a >> 24) & 0xFF` … `a & 0xFF` |
| `Packing.AssembleAddress` | src/irda.c:256-259 | the big-endian address `(id[0] << 24) + … + id[3]`, below 2^32 |
| `Packing.SplitThenAssemble` | src/irda.c:294-297 | reassembling the four bytes `(a >> 24) & 0xFF` … `a & 0xFF` gives the address back |
| `Packing.AssembleThenSplit` | src/irda.c:256-259 | splitting an address assembled from four device-ID bytes gives those bytes back |
| `Packing.SplitInjective` | src/irda.c:294-297 | distinct addresses give distinct device-ID bytes |
| `Packing.AssembleHints` | src/irda.c:260-261 | the hints word `(h1 << 8) + h2` is below 65536 and gives back both bytes |
| `Timeval.Deadline` | src/irda.c:379-383 | a negative timeout means no deadline; otherwise `tv_usec` is a multiple of 1000 below 10^6 and `tv_sec*1000 + tv_usec/1000` equals the timeout |
| `Timeval.DeadlineInjective` | src/irda.c:379-383 | different non-negative timeouts give different deadlines |
| `ServiceName.CStringLength` | src/irda.c:299 | the length of a C string: every character before it is non-NUL and the one at it, if any, is NUL |
| `ServiceName.StrNCopy` | src/irda.c:299 | strncpy yields exactly n bytes: the source's characters up to its NUL, then NUL padding |
| `ServiceName.NameField` | src/irda.c:298-301 | the name field: strncpy of the name into 25 bytes, or 25 zero bytes for NULL |
| `ServiceName.NameFieldContents` | src/irda.c:298-301 | a short name reads back unchanged, terminated and zero-padded; a long one keeps 25 characters and no terminator; NULL gives 25 zero bytes |
| `ServiceName.Decimal` | src/irda.c:333 | `%u` prints at least one digit, only digits, no leading zero |
| `ServiceName.DecimalRoundTrip` | src/irda.c:333 | reading back the printed digits gives the number |
| `ServiceName.DecimalLengthU32` | src/irda.c:333 | an unsigned int prints as at most 10 digits |
| `ServiceName.FormatInto` | src/irda.c:333 | snprintf into a zeroed field: at most size-1 characters, a NUL, then the untouched zeros |
| `ServiceName.LsapField` | src/irda.c:333 | the Windows LSAP name field: "LSAP-SEL" and the decimal selector formatted into 25 bytes |
| `ServiceName.LsapFieldContents` | src/irda.c:333 | the LSAP field is "LSAP-SEL", the digits of the selector, NUL and zero padding; never truncated; its digits read back as the selector |
| `ErrorMessage.Trimmed` | src/irda.c:72-78 | the trimmed message is a prefix, everything removed is '\n', '\r' or '.', and it does not end in one |
| `ErrorMessage.TrimmedIdempotent` | src/irda.c:72-78 | trimming twice is trimming once |
| `ErrorMessage.TrimmedUnique` | src/irda.c:72-78 | the three properties of `Trimmed` determine its result |
| `ErrorMessage.TrimMessage` | src/irda.c:72-83 | the buffer holds the trimmed message, NULs where trailing characters were, and is unchanged after `rc`; None exactly when nothing is left |
| `Irda.NamePeer` | src/irda.c:291-310 | the peer of connect-by-name: Windows splits the address into bytes, Linux stores it; both carry the name field |
| `Irda.LsapPeer` | src/irda.c:326-340 | the peer of connect-by-LSAP: Windows carries the LSAP-SEL name, Linux the 8-bit selector and a zeroed name |
| `Irda.NamePeerAddresses` | src/irda.c:291-310 | the connect-by-name peer designates the requested address on both platforms and carries the name field; the Linux LSAP selector stays 0 |
| `Irda.LsapPeerAddresses` | src/irda.c:326-340 | the connect-by-LSAP peer designates the requested address; Linux stores the selector (below 256 unchanged, else its low 8 bits) with a zero name, Windows a name whose digits read back as the selector |
| `Irda.Irda.constructor` | src/irda.c:142-146 | a new handle holds the descriptor and timeout -1 |
| `Irda.Open` | src/irda.c:130-160 | success exactly when the output slot is non-NULL, allocation succeeds and the socket is valid; then a fresh handle with timeout -1; otherwise -1 and no handle |
| `Irda.Close` | src/irda.c:164-188 | NULL gives -1; otherwise the handle is released in every case and the result is 0 exactly when the OS close succeeded |
| `Irda.SetTimeout` | src/irda.c:192-200 | NULL gives -1; otherwise the timeout is stored unchanged and nothing else changes |
| `Irda.ConnectName` | src/irda.c:286-318 | NULL gives -1; otherwise 0 exactly when connecting to the name peer succeeds, else -1 |
| `Irda.ConnectLsap` | src/irda.c:321-348 | NULL gives -1; otherwise 0 exactly when connecting to the LSAP peer succeeds, else -1 |
| `Discovery.Normalise` | src/irda.c:253-278 | the callback arguments of one entry: the assembled (Windows) or passed-through (Linux) address, name, charset and hints word |
| `Discovery.NormaliseLossless` | src/irda.c:253-278 | a reported record loses nothing: its address splits back into the entry's ID bytes (Windows) or is the entry's address (Linux), and its hints give back both hint bytes |
| `Discovery.Poll` | src/irda.c:229-251 | at most 5 getsockopt calls and one sleep fewer; the outcome is the last call's; every earlier call would block; a would-block outcome means all 5 calls were made |
| `Discovery.Reported` | src/irda.c:253-279 | one callback per listed device, at most 16, in list order, each with the normalised record |
| `Discovery.DiscoverSpec` | src/irda.c:215-282 | discovery on a valid handle: -1 on a non-EAGAIN error, 0 with no callbacks when the retries run out, else 0 with the listed devices reported when there is a callback |
| `Discovery.Discover` | src/irda.c:215-282 | NULL gives -1 and no calls; otherwise the return code, calls, sleeps and callback invocations are those of the polling loop and the device list |
| `Discovery.DiscoverGivesUp` | src/irda.c:241-242 | when every call would block: 5 calls, 4 sleeps, result 0, callback never invoked |
| `Discovery.DiscoverFirstAnswer` | src/irda.c:229-251 | when the first k calls would block and call k+1 answers: k+1 calls, k sleeps, -1 exactly on an error, otherwise the listed devices reported in order |
| `Transfer.ReadFrom` | src/irda.c:389-410 | the bytes accumulated only grow, never exceed `size`, and reach `size` exactly when the loop stops because the buffer is full |
| `Transfer.Deliver` | src/irda.c:399 | a recv writes its bytes at `data[nbytes..]` and changes nothing else |
| `Transfer.Read` | src/irda.c:374-411 | NULL gives -1 and no change; otherwise the result is -1 on a select or recv error and else the count accumulated (in `[0, size]`); received bytes sit at the front of the buffer and nothing past them changes |
| `Transfer.ReadWholeStream` | src/irda.c:389-410 | a peer that sends N bytes and closes, read into at least N bytes, yields exactly those bytes and returns N |
| `Transfer.ReadChunksFrom` | src/irda.c:389-410 | while the chunks fit, the loop appends them in order: from any iteration it reaches iteration `|chunks|` holding all of them |
| `Transfer.ReadSilentPeer` | src/irda.c:395-396 | a peer that sends nothing: the read times out and returns 0, not an error |
| `Transfer.ReadStopsAfterChunks` | src/irda.c:390-407 | after any number of chunks that leave the buffer short, a timeout or end of stream returns the bytes accumulated so far, while a select or recv error returns -1 with those bytes in the buffer |
| `Transfer.ReadStatus` | src/irda.c:392-410 | the read's return value: -1 after a select or recv error, otherwise the count accumulated |
| `Transfer.WriteFrom` | src/irda.c:420-431 | a write returns either -1 or the full size, never a partial count |
| `Transfer.WriteOutcome` | src/irda.c:420-431 | a write fails exactly when one of its send calls fails, which is then the last call; on success the sent counts add up to the size |
| `Transfer.WriteCooperativePeer` | src/irda.c:420-431 | when every send succeeds, the write returns exactly the size |
| `Transfer.Write` | src/irda.c:415-432 | NULL gives -1; otherwise the result is that of the write loop over the first `size` bytes, so -1 or `size` |

## Left out

- The OS calls themselves (`socket`, `shutdown`, `close`/`closesocket`, `connect`, `getsockopt`, `select`, `recv`, `send`, `FormatMessage`): their results are parameters. `shutdown`'s result is ignored by the source and is not modelled.
- `irda_socket_available`: a bare `ioctl (FIONREAD)` pass-through with nothing beyond the NULL check to state.
- `irda_init`, `irda_cleanup` and `irda_errcode`: WSAStartup/WSACleanup handshakes and last-error queries, all foreign calls.
- The Linux branch of `irda_errmsg` (`strerror`): a foreign call.
- `TRACE` logging and its save/restore of `errno`: diagnostics only.
- Sleeping and real time. `Discovery.Discover` counts its sleeps instead. Linux `select`'s in-place update of the remaining `timeval` and of the `fd_set` across iterations is not modelled: each `select` answer is a parameter that receives the initial deadline.
- Platform struct layout and the address family field.
- Irda.LsapPeer: the 8-bit width of the Linux `sir_lsap_sel` field comes from the kernel header `linux/irda.h`, which is not part of this model; the model stores `lsap % 256`.
- C integer widths: `long timeout` is an unbounded integer, and the conversion of an `unsigned int` count above `INT_MAX` to the `int` return value is not modelled. The signed overflow of `irdaDeviceID[0] << 24` is avoided by computing on naturals below 2^32.
- Memory: `malloc` failure is the `allocates` parameter of `Irda.Open`; `free` is the ghost `closed` flag. Using a handle after `close` is undefined behaviour in C, so every operation requires an open handle.
- The static message buffer of `irda_errmsg` shared between calls: `ErrorMessage.TrimMessage` takes the buffer and the count `FormatMessage` returned.
- Concurrent use of one handle, which is undefined in the source.
- Transfer.Write: requires that each `send` either fails or sends between 1 and all of the bytes offered. With a `send` returning 0 the C loop never ends, and one returning more than offered would overshoot `size`; the source relies on the OS here.
- Transfer.Read: a `recv` delivers at most the bytes requested (the model takes that many of those on offer), which is the OS's side of the contract.
- Discovery.Reported: the C loop runs to `numDevice` / `len` with no cap of its own (src/irda.c:255, src/irda.c:269); the model assumes the OS reports at most the 16 entries the buffer holds and keeps the first 16. With a larger count the C loop would read past `data`.
