/**
 * The Windows branch of `irda_errmsg`: the text FormatMessage left in the
 * static 256-byte buffer loses its trailing '\n', '\r' and '.' characters,
 * each overwritten with NUL in place, and an empty result is reported as NULL.
 */
module ErrorMessage {
  import opened Types

  /** Size of the static message buffer. */
  const BufferSize: nat := 256

  predicate IsTrailing(c: char)
  {
    c == '\n' || c == '\r' || c == '.'
  }

  /** `s` without its trailing run of '\n', '\r' and '.'. */
  function Trimmed(s: seq<char>): (t: seq<char>)
    ensures t <= s
    ensures forall k :: |t| <= k < |s| ==> IsTrailing(s[k])
    ensures t == [] || !IsTrailing(t[|t| - 1])
  {
    if s != [] && IsTrailing(s[|s| - 1]) then Trimmed(s[..|s| - 1]) else s
  }

  /** Trimming a trimmed message changes nothing. */
  lemma TrimmedIdempotent(s: seq<char>)
    ensures Trimmed(Trimmed(s)) == Trimmed(s)
  {
  }

  /**
   * The three properties in `Trimmed`'s contract pin its result down: any
   * prefix that leaves only trailing characters behind and does not itself
   * end in one is the trimmed message.
   */
  lemma {:induction false} TrimmedUnique(s: seq<char>, p: seq<char>)
    requires p <= s
    requires forall k :: |p| <= k < |s| ==> IsTrailing(s[k])
    requires p == [] || !IsTrailing(p[|p| - 1])
    ensures p == Trimmed(s)
  {
    if |p| < |s| {
      assert IsTrailing(s[|s| - 1]);
      assert p <= s[..|s| - 1];
      TrimmedUnique(s[..|s| - 1], p);
    }
  }

  /**
   * The loop of `irda_errmsg` over the `rc` characters FormatMessage stored:
   * while the last one is a trailing character, overwrite it with NUL and
   * shorten. Returns the message, or None for the NULL return when nothing
   * is left.
   */
  method TrimMessage(buffer: array<char>, rc: nat) returns (msg: Option<seq<char>>)
    requires buffer.Length == BufferSize && rc <= buffer.Length
    modifies buffer
    ensures var t := Trimmed(old(buffer[..rc]));
      buffer[..] == t + Zeros(rc - |t|) + old(buffer[rc..])
      && msg == if |t| == 0 then None else Some(t)
  {
    var n: nat := rc;
    while n > 0 && IsTrailing(buffer[n - 1])
      invariant n <= rc
      invariant buffer[..n] == old(buffer[..n])
      invariant buffer[n..rc] == Zeros(rc - n)
      invariant buffer[rc..] == old(buffer[rc..])
      invariant Trimmed(buffer[..n]) == Trimmed(old(buffer[..rc]))
    {
      assert buffer[..n - 1] == buffer[..n][..n - 1];
      buffer[n - 1] := '\0';
      n := n - 1;
    }
    assert buffer[..] == buffer[..n] + buffer[n..rc] + buffer[rc..];
    if n > 0 {
      msg := Some(buffer[..n]);
    } else {
      msg := None;
    }
  }
}
