/**
 * The few C library behaviours the server's string handling rests on:
 * NUL-terminated strings in calloc'd buffers grown by strcat, decimal
 * rendering as sprintf's "%d" does it, decimal parsing as strtol does it
 * (base 10, 64-bit long), the implementation-defined narrowing of a long
 * to a 32-bit int, and an fread stream over a regular file.
 *
 * A C `char` is modelled as a Dafny `char`; every byte the server handles
 * (header text and payload file bytes alike) is one such character.
 */
module CLib {

  datatype Option<T> = None | Some(value: T) {
    predicate IsFailure() {
      None?
    }

    function PropagateFailure<U>(): Option<U>
      requires None?
    {
      None
    }

    function Extract(): T
      requires Some?
    {
      value
    }
  }

  const Nul: char := '\0'

  const IntMin: int := -0x8000_0000
  const IntMax: int := 0x7fff_ffff
  const LongMin: int := -0x8000_0000_0000_0000
  const LongMax: int := 0x7fff_ffff_ffff_ffff

  /** The errno value strtol stores when the number does not fit a long. */
  const ERANGE: int := 34

  predicate NoNul(s: string) {
    Nul !in s
  }

  predicate NoCr(s: string) {
    '\r' !in s
  }

  predicate StartsWith(s: string, prefix: string) {
    |prefix| <= |s| && s[..|prefix|] == prefix
  }

  predicate EndsWith(s: string, suffix: string) {
    |suffix| <= |s| && s[|s| - |suffix|..] == suffix
  }

  /** Concatenation keeps a text free of NUL and carriage-return characters. */
  lemma TextAppend(a: string, b: string)
    requires NoNul(a) && NoCr(a) && NoNul(b) && NoCr(b)
    ensures NoNul(a + b) && NoCr(a + b)
  {
  }

  /** Appending pieces one by one appends their concatenation. */
  lemma Assoc<T>(a: seq<T>, b: seq<T>, c: seq<T>)
    ensures a + b + c == a + (b + c)
  {
  }

  /** Where the middle one of three concatenated strings sits. */
  lemma Middle(a: string, b: string, c: string)
    ensures (a + b + c)[|a|..] == b + c
    ensures (a + b + c)[|a|..|a| + |b|] == b
  {
    assert (a + b + c)[|a|..] == b + c;
  }

  function Min(a: int, b: int): int {
    if a <= b then a else b
  }

  // ---------------------------------------------------------------------
  // Decimal digits
  // ---------------------------------------------------------------------

  predicate IsDigit(c: char) {
    '0' <= c <= '9'
  }

  predicate AllDigits(s: string) {
    forall i :: 0 <= i < |s| ==> IsDigit(s[i])
  }

  /** isspace in the C locale: space, \t, \n, \v, \f and \r. */
  predicate IsSpace(c: char) {
    c == ' ' || ('\t' <= c <= '\r')
  }

  function DigitChar(d: nat): (c: char)
    requires d < 10
    ensures IsDigit(c)
  {
    (('0' as int) + d) as char
  }

  function DigitValue(c: char): (d: nat)
    requires IsDigit(c)
    ensures d < 10
  {
    (c as int) - ('0' as int)
  }

  function Pow10(k: nat): (p: nat)
    ensures p >= 1
  {
    if k == 0 then 1 else 10 * Pow10(k - 1)
  }

  /**
   * The digits sprintf prints for a non-negative number: most significant
   * first, no leading zeros (a single "0" for zero), no padding.
   */
  function NatToDecimal(n: nat): (s: string)
    ensures 1 <= |s| && AllDigits(s)
    ensures s[0] == '0' ==> n == 0
  {
    if n < 10 then [DigitChar(n)] else NatToDecimal(n / 10) + [DigitChar(n % 10)]
  }

  /** Appending a digit to a positive number appends its character to the decimal text. */
  lemma DecimalStep(n: nat, d: nat)
    requires 1 <= n && d < 10
    ensures NatToDecimal(10 * n + d) == NatToDecimal(n) + [DigitChar(d)]
  {
    assert (10 * n + d) / 10 == n && (10 * n + d) % 10 == d;
  }

  /** sprintf (buf, "%d", n): a minus sign for negative numbers, then the digits. */
  function IntToDecimal(n: int): string {
    if n < 0 then "-" + NatToDecimal(-n) else NatToDecimal(n)
  }

  /** The number a string of decimal digits denotes. */
  function DigitsValue(s: string): nat
    requires AllDigits(s)
  {
    if s == [] then 0 else DigitsValue(s[..|s| - 1]) * 10 + DigitValue(s[|s| - 1])
  }

  lemma {:induction false} DigitsValueOfDecimal(n: nat)
    ensures DigitsValue(NatToDecimal(n)) == n
  {
    var s := NatToDecimal(n);
    if n >= 10 {
      DigitsValueOfDecimal(n / 10);
      assert s[..|s| - 1] == NatToDecimal(n / 10);
    }
  }

  /** A number below 10^k is printed with at most k digits. */
  lemma {:induction false} DecimalLength(n: nat, k: nat)
    requires 1 <= k && n < Pow10(k)
    ensures |NatToDecimal(n)| <= k
  {
    if n >= 10 {
      assert n / 10 < Pow10(k - 1);
      DecimalLength(n / 10, k - 1);
    }
  }

  /** What "%d" prints holds neither a NUL nor a carriage return. */
  lemma DecimalIsText(n: int)
    ensures NoNul(IntToDecimal(n)) && NoCr(IntToDecimal(n))
  {
  }

  /** "%d" of a 32-bit int needs at most 11 characters ("-2147483648"). */
  lemma IntDecimalLength(n: int)
    requires IntMin <= n <= IntMax
    ensures |IntToDecimal(n)| <= 11
    ensures 0 <= n ==> |IntToDecimal(n)| <= 10
  {
    assert Pow10(10) == 10_000_000_000;
    if n < 0 {
      DecimalLength(-n, 10);
    } else {
      DecimalLength(n, 10);
    }
  }

  /** "%d" of a number below 100 (a day, hour, minute or second) takes at most two characters. */
  lemma SmallDecimalLength(n: nat)
    requires n < 100
    ensures |IntToDecimal(n)| <= 2
  {
    assert Pow10(2) == 100;
    DecimalLength(n, 2);
  }

  // ---------------------------------------------------------------------
  // strtol (nptr, &endptr, 10)
  // ---------------------------------------------------------------------

  /** Number of leading characters of s satisfying isspace. */
  function LeadingSpaces(s: string): (k: nat)
    ensures k <= |s|
  {
    if s == [] || !IsSpace(s[0]) then 0 else 1 + LeadingSpaces(s[1..])
  }

  /** Number of leading decimal digits of s. */
  function LeadingDigits(s: string): (k: nat)
    ensures k <= |s| && AllDigits(s[..k])
    ensures k < |s| ==> !IsDigit(s[k])
  {
    if s == [] || !IsDigit(s[0]) then 0
    else
      var k := 1 + LeadingDigits(s[1..]);
      assert s[..k] == [s[0]] + s[1..][..k - 1];
      k
  }

  /**
   * What strtol returns: the value (clamped to the long range), the
   * offset of *endptr from nptr, and whether it stored ERANGE in errno.
   */
  datatype StrtolResult = StrtolResult(value: int, end: nat, overflow: bool)

  /**
   * strtol in base 10: skip isspace characters, take an optional sign, then
   * the longest run of digits. Without digits nothing is converted: the
   * value is 0 and endptr is nptr. A value outside the long range is clamped
   * to LONG_MIN or LONG_MAX and errno is set to ERANGE; endptr still points
   * after the last digit.
   */
  function Strtol(s: string): (r: StrtolResult)
    ensures r.end <= |s|
    ensures LongMin <= r.value <= LongMax
    ensures r.end == 0 ==> r.value == 0 && !r.overflow
  {
    var ws := LeadingSpaces(s);
    var r := SignedDigits(s[ws..]);
    if r.end == 0 then r else StrtolResult(r.value, ws + r.end, r.overflow)
  }

  /** strtol from the first character that is not a space: optional sign, then digits. */
  function SignedDigits(s: string): (r: StrtolResult)
    ensures r.end <= |s|
    ensures LongMin <= r.value <= LongMax
    ensures r.end == 0 ==> r.value == 0 && !r.overflow
  {
    var start := SignLength(s);
    var digits := LeadingDigits(s[start..]);
    if digits == 0 then StrtolResult(0, 0, false)
    else
      assert s[start..][..digits] == s[start..start + digits];
      var magnitude := DigitsValue(s[start..start + digits]);
      Clamped(if Negative(s) then -(magnitude as int) else magnitude, start + digits)
  }

  /** Length of the optional '+' or '-' sign. */
  function SignLength(s: string): (k: nat)
    ensures k <= |s|
  {
    if s != [] && (s[0] == '+' || s[0] == '-') then 1 else 0
  }

  predicate Negative(s: string) {
    s != [] && s[0] == '-'
  }

  /** A converted value outside the long range becomes LONG_MIN or LONG_MAX, with ERANGE. */
  function Clamped(v: int, end: nat): (r: StrtolResult)
    ensures LongMin <= r.value <= LongMax && r.end == end
  {
    if v > LongMax then StrtolResult(LongMax, end, true)
    else if v < LongMin then StrtolResult(LongMin, end, true)
    else StrtolResult(v, end, false)
  }

  lemma {:induction false} LeadingDigitsOfDigits(x: string, t: string)
    requires AllDigits(x)
    requires t == [] || !IsDigit(t[0])
    ensures LeadingDigits(x + t) == |x|
  {
    if x != [] {
      assert (x + t)[1..] == x[1..] + t;
      LeadingDigitsOfDigits(x[1..], t);
    } else {
      assert x + t == t;
    }
  }

  /** Without leading white space, strtol is SignedDigits on the whole text. */
  lemma StrtolNoSpaces(s: string)
    requires s != [] && !IsSpace(s[0])
    ensures Strtol(s) == SignedDigits(s)
  {
    assert LeadingSpaces(s) == 0 && s[0..] == s;
  }

  /** SignedDigits once the sign and the run of digits after it are known. */
  lemma SignedDigitsAt(s: string, d: string)
    requires LeadingDigits(s[SignLength(s)..]) == |d| >= 1
    requires s[SignLength(s)..SignLength(s) + |d|] == d
    ensures AllDigits(d)
    ensures SignedDigits(s) == Clamped(if Negative(s) then -(DigitsValue(d) as int) else DigitsValue(d), SignLength(s) + |d|)
  {
    assert s[SignLength(s)..][..|d|] == d;
  }

  /** The sign strtol sees in front of the digits of "%d" output. */
  lemma SignOf(sign: string, d: string, t: string)
    requires sign == [] || sign == "-"
    requires 1 <= |d| && AllDigits(d)
    ensures SignLength(sign + d + t) == |sign| && (Negative(sign + d + t) <==> sign != [])
  {
    var s := sign + d + t;
    if sign == [] {
      assert s[0] == d[0] && IsDigit(d[0]);
    } else {
      assert s[0] == '-';
    }
  }

  /** An optional minus sign, a run of digits and a non-digit rest. */
  lemma SignedDigitsOf(sign: string, d: string, t: string)
    requires sign == [] || sign == "-"
    requires 1 <= |d| && AllDigits(d)
    requires t == [] || !IsDigit(t[0])
    ensures var v: int := if sign == [] then DigitsValue(d) else -(DigitsValue(d) as int);
            SignedDigits(sign + d + t) == Clamped(v, |sign| + |d|)
  {
    var s := sign + d + t;
    SignOf(sign, d, t);
    Middle(sign, d, t);
    LeadingDigitsOfDigits(d, t);
    SignedDigitsAt(s, d);
    var v: int := if sign == [] then DigitsValue(d) else -(DigitsValue(d) as int);
    assert (if Negative(s) then -(DigitsValue(d) as int) else DigitsValue(d)) == v;
  }

  /**
   * Parsing what sprintf "%d" printed gives the number back, whatever
   * non-digit text follows it: strtol consumes exactly the printed digits.
   */
  lemma StrtolOfDecimal(n: int, t: string)
    requires LongMin <= n <= LongMax
    requires t == [] || !IsDigit(t[0])
    ensures Strtol(IntToDecimal(n) + t) == StrtolResult(n, |IntToDecimal(n)|, false)
  {
    var m := if n < 0 then -n else n;
    var sign := if n < 0 then "-" else [];
    var d := NatToDecimal(m);
    assert IntToDecimal(n) + t == sign + d + t;
    DigitsValueOfDecimal(m);
    SignedDigitsOf(sign, d, t);
    StrtolNoSpaces(sign + d + t);
  }

  /**
   * The (int) conversion of a long: gcc keeps the low 32 bits, read as a
   * two's complement number (the C standard leaves this implementation-defined).
   */
  function ToInt32(v: int): (r: int)
    ensures IntMin <= r <= IntMax
    ensures IntMin <= v <= IntMax ==> r == v
  {
    (v - IntMin) % 0x1_0000_0000 + IntMin
  }

  /** A long just above the int range wraps around to 2^32 less. */
  lemma ToInt32Above(v: int)
    requires IntMax < v <= IntMax + 0x1_0000_0000
    ensures ToInt32(v) == v - 0x1_0000_0000
  {
    ModOnce(v - IntMin, 0x1_0000_0000);
  }

  lemma ModOnce(x: int, m: int)
    requires 0 < m <= x < 2 * m
    ensures x % m == x - m
  {
  }

  // ---------------------------------------------------------------------
  // A calloc'd char buffer holding a NUL-terminated string
  // ---------------------------------------------------------------------

  /**
   * A buffer from calloc that strcpy/strcat fill: the string occupies the
   * first `len` cells, every cell after it still holds the NUL calloc wrote.
   * `len` is what strlen would compute; it is kept rather than rescanned.
   */
  class CBuffer {
    const data: array<char>
    var len: nat
    /** The C string the buffer holds. */
    ghost var contents: string

    ghost predicate Valid()
      reads this, data
    {
      && len < data.Length
      && |contents| == len
      && (forall i :: 0 <= i < len ==> data[i] == contents[i])
      && (forall i :: 0 <= i < data.Length ==> (data[i] == Nul <==> len <= i))
    }

    /** calloc (size, 1): a zeroed buffer, which reads as the empty string. */
    constructor Calloc(size: nat)
      requires 1 <= size
      ensures Valid() && fresh(data)
      ensures data.Length == size && len == 0 && contents == []
    {
      data := new char[size](_ => Nul);
      len := 0;
      contents := [];
    }

    /** strcat (buf, s), for an s that fits before the buffer's last cell. */
    method Cat(s: string)
      requires Valid() && NoNul(s)
      requires len + |s| < data.Length
      modifies this, data
      ensures Valid() && len == old(len) + |s|
      ensures contents == old(contents) + s
    {
      forall i | 0 <= i < |s| {
        data[len + i] := s[i];
      }
      len := len + |s|;
      contents := contents + s;
    }
  }

  // ---------------------------------------------------------------------
  // fread over a FILE opened on a regular file
  // ---------------------------------------------------------------------

  /**
   * An open FILE on a regular file: the bytes fread can deliver (a read
   * error ends them just as the end of the file does) and the file position.
   */
  class Stream {
    const contents: seq<char>
    var position: nat

    /** fopen (path, "r"): positioned at the start of the file. */
    constructor Open(contents: seq<char>)
      ensures this.contents == contents && position == 0
    {
      this.contents := contents;
      position := 0;
    }

    /**
     * fread (buf, 1, n, stream): on a regular file it returns fewer than n
     * bytes only when the data runs out, and advances the position past
     * what it returned.
     */
    method Read(n: nat) returns (chunk: seq<char>)
      requires position <= |contents|
      modifies this
      ensures position == old(position) + Min(n, |contents| - old(position))
      ensures chunk == contents[old(position)..position]
    {
      chunk := contents[position..position + Min(n, |contents| - position)];
      position := position + |chunk|;
    }
  }
}
