/**
 * The 25-byte service-name field of the IrDA peer address built by
 * `irda_socket_connect_name` and, on Windows, `irda_socket_connect_lsap`.
 * A C string is modelled as the characters in memory from its start: the
 * string proper ends at the first NUL, or at the end of the sequence.
 */
module ServiceName {
  import opened Types

  /** Size of `irdaServiceName` / `sir_name`, and the limit passed to strncpy and snprintf. */
  const FieldSize: nat := 25

  /** Prefix of the service name synthesised for an LSAP selector. */
  const LsapPrefix: seq<char> := "LSAP-SEL"

  /** `strlen`: the number of characters before the first NUL (all of `s` when it holds none). */
  function CStringLength(s: seq<char>): (n: nat)
    ensures n <= |s|
    ensures forall k :: 0 <= k < n ==> s[k] != '\0'
    ensures n < |s| ==> s[n] == '\0'
  {
    if s == [] || s[0] == '\0' then 0 else 1 + CStringLength(s[1..])
  }

  /**
   * `strncpy (dst, src, n)`: copies characters of `src` until its NUL or
   * until `n` have been written, then pads the rest of the `n` bytes with NUL.
   */
  function StrNCopy(src: seq<char>, n: nat): (dst: seq<char>)
    ensures |dst| == n
    ensures forall k :: 0 <= k < n ==> dst[k] == if k < CStringLength(src) then src[k] else '\0'
  {
    if n == 0 then []
    else if src == [] || src[0] == '\0' then Zeros(n)
    else [src[0]] + StrNCopy(src[1..], n - 1)
  }

  /** The field as `irda_socket_connect_name` fills it: strncpy of the name, or all zeros for NULL. */
  function NameField(name: Option<seq<char>>): seq<char>
  {
    match name
    case Some(s) => StrNCopy(s, FieldSize)
    case None => Zeros(FieldSize)
  }

  /**
   * A name shorter than the field reads back unchanged and NUL-terminated,
   * with zeros after it; a longer one keeps its first 25 characters and no
   * terminator; a NULL name gives 25 zero bytes.
   */
  lemma NameFieldContents(name: Option<seq<char>>)
    ensures |NameField(name)| == FieldSize
    ensures name.None? ==> NameField(name) == Zeros(FieldSize)
    ensures name.Some? && '\0' !in name.value && |name.value| < FieldSize ==>
      var f := NameField(name);
      CStringLength(f) == |name.value| && f[..|name.value|] == name.value
      && f[|name.value|..] == Zeros(FieldSize - |name.value|)
    ensures name.Some? && '\0' !in name.value && |name.value| >= FieldSize ==>
      NameField(name) == name.value[..FieldSize] && CStringLength(NameField(name)) == FieldSize
  {
    if name.Some? && '\0' !in name.value {
      var s := name.value;
      var f := NameField(name);
      NoNulLength(s);
      if |s| < FieldSize {
        assert f[..|s|] == s;
        assert f[|s|..] == Zeros(FieldSize - |s|);
        CStringLengthAt(f, |s|);
      } else {
        assert f == s[..FieldSize];
        CStringLengthAt(f, FieldSize);
      }
    }
  }

  /** A sequence without NUL is a whole C string. */
  lemma {:induction false} NoNulLength(s: seq<char>)
    requires '\0' !in s
    ensures CStringLength(s) == |s|
  {
    if s != [] {
      assert '\0' !in s[1..];
      NoNulLength(s[1..]);
    }
  }

  /** The length of a C string is the position of its terminator. */
  lemma {:induction false} CStringLengthAt(s: seq<char>, n: nat)
    requires n <= |s|
    requires forall k :: 0 <= k < n ==> s[k] != '\0'
    requires n < |s| ==> s[n] == '\0'
    ensures CStringLength(s) == n
  {
    if n > 0 {
      CStringLengthAt(s[1..], n - 1);
    }
  }

  /** The character for a decimal digit. */
  function DigitChar(d: nat): (c: char)
    requires d < 10
    ensures '0' <= c <= '9'
  {
    ('0' as int + d) as char
  }

  predicate IsDigits(s: seq<char>)
  {
    forall k :: 0 <= k < |s| ==> '0' <= s[k] <= '9'
  }

  /** `%u`: the decimal representation of `n`, without leading zeros. */
  function Decimal(n: nat): (s: seq<char>)
    ensures 1 <= |s| && IsDigits(s)
    ensures |s| > 1 ==> s[0] != '0'
  {
    if n < 10 then [DigitChar(n)] else Decimal(n / 10) + [DigitChar(n % 10)]
  }

  /** The number a string of decimal digits denotes: the partner of `Decimal`. */
  function DecimalValue(s: seq<char>): nat
    requires IsDigits(s)
  {
    if s == [] then 0
    else DecimalValue(s[..|s| - 1]) * 10 + (s[|s| - 1] as int - '0' as int)
  }

  /** Reading back what `%u` prints gives the number printed. */
  lemma {:induction false} DecimalRoundTrip(n: nat)
    ensures DecimalValue(Decimal(n)) == n
  {
    if n >= 10 {
      var s := Decimal(n);
      assert s[..|s| - 1] == Decimal(n / 10);
      DecimalRoundTrip(n / 10);
    }
  }

  /** A number below 10^k prints as at most k digits. */
  lemma {:induction false} DecimalLength(n: nat, k: nat, bound: nat)
    requires 1 <= k && bound == Pow10(k) && n < bound
    ensures |Decimal(n)| <= k
  {
    if n >= 10 {
      DecimalLength(n / 10, k - 1, Pow10(k - 1));
    }
  }

  function Pow10(k: nat): nat
  {
    if k == 0 then 1 else 10 * Pow10(k - 1)
  }

  /** An `unsigned int` prints as at most ten digits. */
  lemma DecimalLengthU32(n: u32)
    ensures |Decimal(n)| <= 10
  {
    assert Pow10(10) == 10_000_000_000 by {
      assert Pow10(2) == 100;
      assert Pow10(4) == 10_000 by { assert Pow10(3) == 1000; }
      assert Pow10(6) == 1_000_000 by { assert Pow10(5) == 100_000; }
      assert Pow10(8) == 100_000_000 by { assert Pow10(7) == 10_000_000; }
      assert Pow10(9) == 1_000_000_000;
    }
    DecimalLength(n, 10, Pow10(10));
  }

  /**
   * `snprintf (field, size, "%s", text)` into a zero-initialised field of
   * `size` bytes: at most `size - 1` characters of `text`, then a NUL; the
   * bytes after it keep their zero initialisation.
   */
  function FormatInto(text: seq<char>, size: nat): seq<char>
    requires size >= 1
  {
    var kept := Take(text, size - 1);
    kept + ['\0'] + Zeros(size - 1 - |kept|)
  }

  /** The Windows LSAP shim: `snprintf (irdaServiceName, 25, "LSAP-SEL%u", lsap)`. */
  function LsapField(lsap: u32): seq<char>
  {
    FormatInto(LsapPrefix + Decimal(lsap), FieldSize)
  }

  /**
   * The synthesised name is never truncated: the field holds "LSAP-SEL",
   * the decimal selector, a terminator and zero padding, and reading the
   * digits back gives the selector.
   */
  lemma LsapFieldContents(lsap: u32)
    ensures var digits := Decimal(lsap);
      var f := LsapField(lsap);
      |LsapPrefix| + |digits| < FieldSize
      && |f| == FieldSize
      && f == LsapPrefix + digits + Zeros(FieldSize - |LsapPrefix| - |digits|)
      && CStringLength(f) == |LsapPrefix| + |digits|
      && f[..|LsapPrefix|] == LsapPrefix
      && IsDigits(f[|LsapPrefix|..CStringLength(f)])
      && DecimalValue(f[|LsapPrefix|..CStringLength(f)]) == lsap
  {
    var digits := Decimal(lsap);
    DecimalLengthU32(lsap);
    var text := LsapPrefix + digits;
    var f := LsapField(lsap);
    assert Take(text, FieldSize - 1) == text;
    assert f == text + Zeros(FieldSize - |text|);
    var n := |text|;
    assert forall k :: 0 <= k < |LsapPrefix| ==> f[k] == LsapPrefix[k];
    assert forall k :: |LsapPrefix| <= k < n ==> f[k] == digits[k - |LsapPrefix|];
    CStringLengthAt(f, n);
    assert f[|LsapPrefix|..n] == digits;
    DecimalRoundTrip(lsap);
  }
}
