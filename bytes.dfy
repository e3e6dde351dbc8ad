/**
 * Byte-level building blocks shared by the radio codec and the host codec:
 * fixed-width integers, C strings held in byte buffers, and the C library
 * routines the codecs rely on (`strchr`, `strncmp`, `sprintf("%u")`, `atoi`,
 * `memcpy`).
 */
module Bytes {

  /** `uint8_t`; also one byte of a buffer or one character of a C string. */
  type uint8 = x: int | 0 <= x < 0x100
  /** `uint16_t`. */
  type uint16 = x: int | 0 <= x < 0x1_0000

  datatype Option<+T> = None | Some(value: T)

  const NUL: uint8 := 0
  const LF: uint8 := 10    // '\n'
  const CR: uint8 := 13    // '\r'
  const SPACE: uint8 := 32 // ' '
  const PLUS: uint8 := 43  // '+'
  const DASH: uint8 := 45  // '-'
  const ZERO: uint8 := 48  // '0'
  const PIPE: uint8 := 124 // '|'

  /** Conversion of an `int` to `uint16_t`: C keeps the value modulo 2^16. */
  function ToUint16(v: int): (r: uint16)
    ensures (r - v) % 0x1_0000 == 0
    ensures 0 <= v < 0x1_0000 ==> r == v
  {
    v % 0x1_0000
  }

  /** Conversion of an `int` to `uint8_t`: C keeps the value modulo 2^8. */
  function ToUint8(v: int): (r: uint8)
    ensures (r - v) % 0x100 == 0
    ensures 0 <= v < 0x100 ==> r == v
  {
    v % 0x100
  }

  // ---------------------------------------------------------------------
  // C strings in byte buffers

  /**
   * The C string stored in `buf`: the bytes before the first NUL. A buffer
   * without a NUL is read up to its end (C would read past it).
   */
  function CString(buf: seq<uint8>): (r: seq<uint8>)
    ensures r <= buf
    ensures NUL !in r
    ensures |r| < |buf| ==> buf[|r|] == NUL
  {
    if buf == [] || buf[0] == NUL then [] else [buf[0]] + CString(buf[1..])
  }

  /** A buffer holding `text` and then a NUL holds the C string `text`, whatever follows. */
  lemma {:induction false} CStringOfTerminated(text: seq<uint8>, rest: seq<uint8>)
    requires NUL !in text
    ensures CString(text + [NUL] + rest) == text
  {
    if text != [] {
      assert (text + [NUL] + rest)[1..] == text[1..] + [NUL] + rest;
      CStringOfTerminated(text[1..], rest);
    }
  }

  /** `piece` sits in `buf` from index `i` on. */
  predicate PlacedAt(buf: seq<uint8>, i: nat, piece: seq<uint8>) {
    i + |piece| <= |buf| && forall k :: 0 <= k < |piece| ==> buf[i + k] == piece[k]
  }

  /** A buffer that starts with `text` holds it from index 0 on. */
  lemma {:induction false} PrefixPlaced(buf: seq<uint8>, text: seq<uint8>)
    requires |text| <= |buf| && buf[..|text|] == text
    ensures PlacedAt(buf, 0, text)
  {
    forall k | 0 <= k < |text|
      ensures buf[0 + k] == text[k]
    {
      assert buf[k] == buf[..|text|][k];
    }
  }

  /** Two pieces placed one after the other are each placed at their own offset. */
  lemma {:induction false} PlacedSplit(buf: seq<uint8>, i: nat, a: seq<uint8>, b: seq<uint8>)
    requires PlacedAt(buf, i, a + b)
    ensures PlacedAt(buf, i, a) && PlacedAt(buf, i + |a|, b)
  {
    forall k | 0 <= k < |a|
      ensures buf[i + k] == a[k]
    {
      assert (a + b)[k] == a[k];
    }
    forall k | 0 <= k < |b|
      ensures buf[i + |a| + k] == b[k]
    {
      assert (a + b)[|a| + k] == b[k];
    }
  }

  /**
   * `strchr(buf + from, c)` for a character `c` other than NUL: the index of
   * the first `c` at or after `from`, searching no further than the first
   * NUL (the end of the buffer stands in for a NUL the buffer lacks).
   */
  function StrChr(buf: seq<uint8>, from: nat, c: uint8): (r: Option<nat>)
    requires from <= |buf|
    requires c != NUL
    ensures r.Some? ==> from <= r.value < |buf| && buf[r.value] == c
    decreases |buf| - from
  {
    if from == |buf| || buf[from] == NUL then None
    else if buf[from] == c then Some(from)
    else StrChr(buf, from + 1, c)
  }

  /**
   * What `strchr` promises: a `c` it finds is the first one, with no NUL
   * before it; it finds nothing exactly when the C string starting at `from`
   * holds no `c`.
   */
  lemma {:induction false} StrChrIsFirst(buf: seq<uint8>, from: nat, c: uint8)
    requires from <= |buf|
    requires c != NUL
    ensures var r := StrChr(buf, from, c);
            r.Some? ==> forall k :: from <= k < r.value ==> buf[k] != c && buf[k] != NUL
    ensures StrChr(buf, from, c).None? <==> c !in CString(buf[from..])
    decreases |buf| - from
  {
    if from < |buf| && buf[from] != NUL {
      assert buf[from..][1..] == buf[from + 1..];
      if buf[from] != c {
        StrChrIsFirst(buf, from + 1, c);
      }
    }
  }

  /** `strchr` finds the `c` at `to` when nothing from `from` up to it is a `c` or a NUL. */
  lemma {:induction false} StrChrFinds(buf: seq<uint8>, from: nat, to: nat, c: uint8)
    requires from <= to < |buf| && buf[to] == c && c != NUL
    requires forall k :: from <= k < to ==> buf[k] != c && buf[k] != NUL
    ensures StrChr(buf, from, c) == Some(to)
    decreases (to as int) - from
  {
    if from < to {
      StrChrFinds(buf, from + 1, to, c);
    }
  }

  /**
   * `strncmp(a, b, n) == 0`: the first `n` characters agree, where the
   * comparison ends early at a NUL that both strings share.
   */
  function StrNEqual(a: seq<uint8>, b: seq<uint8>, n: nat): bool
    requires n <= |a| && n <= |b|
  {
    if n == 0 then true
    else if a[0] != b[0] then false
    else if a[0] == NUL then true
    else StrNEqual(a[1..], b[1..], n - 1)
  }

  /**
   * Comparing a buffer with a NUL-free prefix over the prefix's length is
   * exactly testing that the buffer starts with that prefix.
   */
  lemma {:induction false} StrNEqualIsPrefix(a: seq<uint8>, prefix: seq<uint8>, rest: seq<uint8>)
    requires NUL !in prefix
    requires |prefix| <= |a|
    ensures StrNEqual(a, prefix + rest, |prefix|) <==> a[..|prefix|] == prefix
  {
    if prefix != [] {
      assert (prefix + rest)[1..] == prefix[1..] + rest;
      StrNEqualIsPrefix(a[1..], prefix[1..], rest);
      if a[0] == prefix[0] {
        assert a[..|prefix|] == [a[0]] + a[1..][..|prefix| - 1];
      }
    }
  }

  // ---------------------------------------------------------------------
  // Decimal text: `sprintf("%u")` and `atoi`

  predicate IsDigit(b: uint8) {
    ZERO <= b <= ZERO + 9
  }

  predicate AllDigits(s: seq<uint8>) {
    forall i :: 0 <= i < |s| ==> IsDigit(s[i])
  }

  /** The characters `sprintf("%u", n)` writes: no leading zeros, no sign. */
  function Decimal(n: nat): (r: seq<uint8>)
    ensures 1 <= |r|
    ensures AllDigits(r)
    ensures r[0] == ZERO ==> n == 0
  {
    if n < 10 then [ZERO + n] else Decimal(n / 10) + [ZERO + n % 10]
  }

  function Pow10(k: nat): nat {
    if k == 0 then 1 else 10 * Pow10(k - 1)
  }

  /** A number below 10^k needs at most k digits. */
  lemma {:induction false} DecimalFits(n: nat, k: nat)
    requires 1 <= k && n < Pow10(k)
    ensures |Decimal(n)| <= k
  {
    if n >= 10 {
      assert Pow10(1) == 10;
      DecimalFits(n / 10, k - 1);
    }
  }

  /** A `uint16_t` prints in at most 5 digits, a `uint8_t` in at most 3. */
  lemma {:induction false} DecimalWidths(n: nat)
    ensures n < 0x1_0000 ==> |Decimal(n)| <= 5
    ensures n < 0x100 ==> |Decimal(n)| <= 3
  {
    assert Pow10(3) == 1000 && Pow10(5) == 100000;
    if n < 0x1_0000 { DecimalFits(n, 5); }
    if n < 0x100 { DecimalFits(n, 3); }
  }

  /** `isspace` in the C locale: space, tab, LF, VT, FF and CR. */
  predicate IsSpace(b: uint8) {
    b == SPACE || 9 <= b <= 13
  }

  /** `atoi` stops at a byte that is neither white space, a digit nor a sign (a NUL among them). */
  predicate StopsAtoi(buf: seq<uint8>, j: nat) {
    j == |buf| || (j < |buf| && !IsSpace(buf[j]) && !IsDigit(buf[j]) && buf[j] != DASH && buf[j] != PLUS)
  }

  /** The index of the first byte at or after `i` that is not white space. */
  function SkipSpaces(buf: seq<uint8>, i: nat): (r: nat)
    requires i <= |buf|
    ensures i <= r <= |buf|
    decreases |buf| - i
  {
    if i < |buf| && IsSpace(buf[i]) then SkipSpaces(buf, i + 1) else i
  }

  /**
   * The run of digits starting at index `i`, accumulated onto `acc` the way
   * `atoi` does it: `acc * 10 + digit` for each digit, up to the first byte
   * that is not a digit.
   */
  function DigitsFrom(buf: seq<uint8>, i: nat, acc: nat): nat
    requires i <= |buf|
    decreases |buf| - i
  {
    if i < |buf| && IsDigit(buf[i]) then DigitsFrom(buf, i + 1, acc * 10 + (buf[i] - ZERO)) else acc
  }

  /**
   * `atoi(buf + i)`: leading white space, an optional sign, then the longest
   * run of digits; 0 when there are none. The result is the mathematical
   * value (C leaves values beyond `int` undefined); the end of the buffer
   * stops the reading like a NUL.
   */
  function AtoiAt(buf: seq<uint8>, i: nat): int
    requires i <= |buf|
  {
    var j := SkipSpaces(buf, i);
    if j < |buf| && buf[j] == DASH then -(DigitsFrom(buf, j + 1, 0) as int)
    else if j < |buf| && buf[j] == PLUS then DigitsFrom(buf, j + 1, 0)
    else DigitsFrom(buf, j, 0)
  }

  /** The value of a string of decimal digits, accumulated onto `acc` from the left. */
  function DigitsValue(d: seq<uint8>, acc: nat): nat
    requires AllDigits(d)
  {
    if d == [] then acc else DigitsValue(d[1..], acc * 10 + (d[0] - ZERO))
  }

  /** Reading digits in two pieces: the second piece continues from the value of the first. */
  lemma {:induction false} DigitsValueAppend(a: seq<uint8>, b: seq<uint8>, acc: nat)
    requires AllDigits(a) && AllDigits(b)
    ensures AllDigits(a + b)
    ensures DigitsValue(a + b, acc) == DigitsValue(b, DigitsValue(a, acc))
  {
    assert forall i :: 0 <= i < |a + b| ==> (a + b)[i] == if i < |a| then a[i] else b[i - |a|];
    if a == [] {
      assert a + b == b;
    } else {
      assert (a + b)[0] == a[0] && (a + b)[1..] == a[1..] + b;
      DigitsValueAppend(a[1..], b, acc * 10 + (a[0] - ZERO));
    }
  }

  /** Reading back the digits `%u` prints gives the number printed. */
  lemma {:induction false} DigitsValueOfDecimal(n: nat)
    ensures DigitsValue(Decimal(n), 0) == n
  {
    if n >= 10 {
      DigitsValueAppend(Decimal(n / 10), [ZERO + n % 10], 0);
      DigitsValueOfDecimal(n / 10);
    }
  }

  /** Reading digits that sit in the buffer from `i` on, up to a byte that is not a digit. */
  lemma {:induction false} DigitsFromOfDigits(buf: seq<uint8>, i: nat, d: seq<uint8>, acc: nat)
    requires AllDigits(d) && PlacedAt(buf, i, d)
    requires i + |d| == |buf| || !IsDigit(buf[i + |d|])
    ensures DigitsFrom(buf, i, acc) == DigitsValue(d, acc)
    decreases |d|
  {
    if d != [] {
      assert buf[i + 0] == d[0];
      assert PlacedAt(buf, i + 1, d[1..]) by {
        forall k | 0 <= k < |d[1..]|
          ensures buf[i + 1 + k] == d[1..][k]
        {
          assert buf[i + (k + 1)] == d[k + 1];
        }
      }
      DigitsFromOfDigits(buf, i + 1, d[1..], acc * 10 + (d[0] - ZERO));
    }
  }

  /** `atoi` at an index holding a run of digits followed by a non-digit (or the end) reads the run's value. */
  lemma {:induction false} AtoiOfDigits(buf: seq<uint8>, i: nat, d: seq<uint8>)
    requires AllDigits(d) && d != [] && PlacedAt(buf, i, d)
    requires i + |d| == |buf| || !IsDigit(buf[i + |d|])
    ensures AtoiAt(buf, i) == DigitsValue(d, 0)
  {
    assert buf[i + 0] == d[0];
    DigitsFromOfDigits(buf, i, d, 0);
  }

  /** `atoi` reads back what `%u` printed. */
  lemma {:induction false} AtoiOfDecimal(n: nat)
    ensures AtoiAt(Decimal(n), 0) == n
  {
    var d := Decimal(n);
    assert PlacedAt(d, 0, d) by {
      assert forall k :: 0 <= k < |d| ==> d[0 + k] == d[k];
    }
    AtoiOfDigits(d, 0, d);
    DigitsValueOfDecimal(n);
  }

  /** Two buffers that agree from `i` up to a byte that stops `atoi` skip the same leading spaces. */
  lemma {:induction false} SkipSpacesAgree(a: seq<uint8>, b: seq<uint8>, i: nat, j: nat)
    requires i <= j <= |a| && j <= |b|
    requires forall k :: i <= k < j ==> a[k] == b[k]
    requires StopsAtoi(a, j) && StopsAtoi(b, j)
    ensures SkipSpaces(a, i) == SkipSpaces(b, i) <= j
    decreases j - i
  {
    if i < j {
      SkipSpacesAgree(a, b, i + 1, j);
    }
  }

  /** The same for the run of digits. */
  lemma {:induction false} DigitsFromAgree(a: seq<uint8>, b: seq<uint8>, i: nat, j: nat, acc: nat)
    requires i <= j <= |a| && j <= |b|
    requires forall k :: i <= k < j ==> a[k] == b[k]
    requires StopsAtoi(a, j) && StopsAtoi(b, j)
    ensures DigitsFrom(a, i, acc) == DigitsFrom(b, i, acc)
    decreases j - i
  {
    if i < j && IsDigit(a[i]) {
      DigitsFromAgree(a, b, i + 1, j, acc * 10 + (a[i] - ZERO));
    }
  }

  /**
   * `atoi` reads nothing past a byte that stops it: two buffers that agree
   * from `i` up to such a byte give the same number.
   */
  lemma {:induction false} AtoiAtAgree(a: seq<uint8>, b: seq<uint8>, i: nat, j: nat)
    requires i <= j <= |a| && j <= |b|
    requires forall k :: i <= k < j ==> a[k] == b[k]
    requires StopsAtoi(a, j) && StopsAtoi(b, j)
    ensures AtoiAt(a, i) == AtoiAt(b, i)
  {
    SkipSpacesAgree(a, b, i, j);
    var k := SkipSpaces(a, i);
    if k < j {
      DigitsFromAgree(a, b, k + 1, j, 0);
    }
    DigitsFromAgree(a, b, k, j, 0);
  }

  // ---------------------------------------------------------------------
  // Writing into buffers

  /**
   * `memcpy(dst, src, |src|)`: the first `|src|` bytes of `dst` become `src`,
   * the others keep their value.
   */
  method MemCopy(dst: array<uint8>, src: seq<uint8>)
    requires |src| <= dst.Length
    modifies dst
    ensures dst[..] == src + old(dst[|src|..])
  {
    var i := 0;
    while i < |src|
      invariant 0 <= i <= |src|
      invariant forall k :: 0 <= k < i ==> dst[k] == src[k]
      invariant forall k :: i <= k < dst.Length ==> dst[k] == old(dst[k])
    {
      dst[i] := src[i];
      i := i + 1;
    }
    assert dst[..] == src + old(dst[|src|..]);
  }

  /**
   * `sprintf(buffer, ...)` once the text is formatted: the text and its NUL
   * terminator are written at the start of `buffer` (the source never checks
   * the buffer size; the caller must leave room).
   */
  method WriteCString(buffer: array<uint8>, text: seq<uint8>)
    requires |text| < buffer.Length
    modifies buffer
    ensures buffer[..] == text + [NUL] + old(buffer[|text| + 1..])
  {
    MemCopy(buffer, text + [NUL]);
  }
}
