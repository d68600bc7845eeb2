/** Byte strings and the few Go library functions on them (`bytes`, `strings`, `strconv`) that the
    wire code relies on. */
module ByteText {
  import opened Wrappers

  newtype byte = x: int | 0 <= x < 0x100

  type Bytes = seq<byte>

  const CR: byte := 13
  const LF: byte := 10
  const SPACE: byte := 32
  const COLON: byte := 58
  const CRLF: Bytes := [13, 10]
  const BLANK_LINE: Bytes := [13, 10, 13, 10]
  const MAX_INT64: int := 0x7fff_ffff_ffff_ffff

  predicate IsAscii(s: string) {
    forall i | 0 <= i < |s| :: s[i] as int < 0x80
  }

  /** The bytes of an ASCII literal. */
  function Ascii(s: string): Bytes
    requires IsAscii(s)
  {
    seq(|s|, i requires 0 <= i < |s| => s[i] as int as byte)
  }

  // ---- bytes.Index and bytes.Split -------------------------------------------------------------

  predicate OccursAt(s: Bytes, sep: Bytes, i: nat) {
    i + |sep| <= |s| && s[i..i + |sep|] == sep
  }

  predicate Contains(s: Bytes, sep: Bytes) {
    exists i: nat | i <= |s| :: OccursAt(s, sep, i)
  }

  /** Position of the first occurrence of `sep` at or after `from`, or -1. */
  function IndexFrom(s: Bytes, sep: Bytes, from: nat): (i: int)
    ensures i < 0 ==> i == -1 && forall j: nat | from <= j :: !OccursAt(s, sep, j)
    ensures i >= 0 ==> from <= i && OccursAt(s, sep, i) && forall j: nat | from <= j < i :: !OccursAt(s, sep, j)
    decreases |s| - from
  {
    if from + |sep| > |s| then -1
    else if OccursAt(s, sep, from) then from
    else IndexFrom(s, sep, from + 1)
  }

  function Index(s: Bytes, sep: Bytes): (i: int)
    ensures i < 0 ==> i == -1 && !Contains(s, sep)
    ensures i >= 0 ==> OccursAt(s, sep, i) && forall j: nat | j < i :: !OccursAt(s, sep, j)
  {
    IndexFrom(s, sep, 0)
  }

  /** `bytes.Split`: the pieces between the successive leftmost occurrences of `sep`. */
  function Split(s: Bytes, sep: Bytes): (pieces: seq<Bytes>)
    requires sep != []
    ensures |pieces| >= 1
    ensures forall p | p in pieces :: !Contains(p, sep)
    ensures Join(pieces, sep) == s
    decreases |s|
  {
    var i := Index(s, sep);
    if i < 0 then [s]
    else
      SliceKeepsAbsence(s, sep, i);
      var rest := Split(s[i + |sep|..], sep);
      assert s == s[..i] + sep + s[i + |sep|..];
      [s[..i]] + rest
  }

  function Join(pieces: seq<Bytes>, sep: Bytes): Bytes {
    if |pieces| == 0 then []
    else if |pieces| == 1 then pieces[0]
    else pieces[0] + sep + Join(pieces[1..], sep)
  }

  lemma SliceKeepsAbsence(s: Bytes, sep: Bytes, n: nat)
    requires n <= |s| && sep != []
    requires forall j: nat | j < n :: !OccursAt(s, sep, j)
    ensures !Contains(s[..n], sep)
  {
    forall j: nat | j + |sep| <= n
      ensures !OccursAt(s[..n], sep, j)
    {
      assert !OccursAt(s, sep, j);
      assert s[..n][j..j + |sep|] == s[j..j + |sep|];
    }
  }

  // ---- line ends, byte by byte -------------------------------------------------------------------

  predicate CrlfAt(s: Bytes, i: nat) {
    i + 2 <= |s| && s[i] == 13 && s[i + 1] == 10
  }

  predicate BlankLineAt(s: Bytes, i: nat) {
    i + 4 <= |s| && s[i] == 13 && s[i + 1] == 10 && s[i + 2] == 13 && s[i + 3] == 10
  }

  predicate NoCrlf(s: Bytes) {
    forall i | 0 <= i < |s| :: !CrlfAt(s, i)
  }

  lemma OccursBytewise(s: Bytes, i: nat)
    ensures OccursAt(s, CRLF, i) <==> CrlfAt(s, i)
    ensures OccursAt(s, BLANK_LINE, i) <==> BlankLineAt(s, i)
  {
    if CrlfAt(s, i) {
      assert s[i..i + 2] == CRLF;
    }
    if BlankLineAt(s, i) {
      assert s[i..i + 4] == BLANK_LINE;
    }
    if OccursAt(s, CRLF, i) {
      assert s[i..i + 2][0] == 13 && s[i..i + 2][1] == 10;
    }
    if OccursAt(s, BLANK_LINE, i) {
      var t := s[i..i + 4];
      assert t[0] == 13 && t[1] == 10 && t[2] == 13 && t[3] == 10;
    }
  }

  lemma NoCrlfBytewise(s: Bytes)
    ensures !Contains(s, CRLF) <==> NoCrlf(s)
  {
    forall i: nat
      ensures OccursAt(s, CRLF, i) <==> CrlfAt(s, i)
    {
      OccursBytewise(s, i);
    }
  }

  /** `Index` of a separator is the one position where it occurs first. */
  lemma IndexIs(s: Bytes, sep: Bytes, n: nat)
    requires OccursAt(s, sep, n) && forall j: nat | j < n :: !OccursAt(s, sep, j)
    ensures Index(s, sep) == n
  {
  }

  lemma Associated(a: Bytes, b: Bytes, c: Bytes)
    ensures a + (b + c) == a + b + c
  {
  }

  // ---- strings.TrimSpace (ASCII white space) ----------------------------------------------------

  predicate IsSpace(b: byte) {
    b == 32 || 9 <= b <= 13
  }

  function TrimLeft(s: Bytes): Bytes {
    if s != [] && IsSpace(s[0]) then TrimLeft(s[1..]) else s
  }

  function TrimRight(s: Bytes): Bytes {
    if s != [] && IsSpace(s[|s| - 1]) then TrimRight(s[..|s| - 1]) else s
  }

  function TrimSpace(s: Bytes): Bytes {
    TrimRight(TrimLeft(s))
  }

  // ---- strconv ----------------------------------------------------------------------------------

  /** Value of one digit, as `strconv` reads it: 0-9, then letters in either case. */
  function DigitValue(b: byte): nat {
    if 48 <= b <= 57 then b as int - 48
    else if 97 <= b <= 122 then b as int - 97 + 10
    else if 65 <= b <= 90 then b as int - 65 + 10
    else 99
  }

  predicate AllDigits(s: Bytes, base: nat) {
    forall i | 0 <= i < |s| :: DigitValue(s[i]) < base
  }

  function NumberOf(s: Bytes, base: nat): nat {
    if s == [] then 0 else NumberOf(s[..|s| - 1], base) * base + DigitValue(s[|s| - 1])
  }

  /** `strconv.ParseInt(s, base, 64)`: an optional sign, at least one digit, nothing else, and a
      value that fits 64 bits. */
  function ParseInt(s: Bytes, base: nat): Option<int>
    requires 2 <= base <= 36
  {
    var negative := s != [] && s[0] == 45;
    var digits := if s != [] && (s[0] == 43 || s[0] == 45) then s[1..] else s;
    if digits == [] || !AllDigits(digits, base) then None
    else
      var n: int := NumberOf(digits, base);
      if negative then (if n <= MAX_INT64 + 1 then Some(-n) else None)
      else (if n <= MAX_INT64 then Some(n) else None)
  }

  const MINUS: byte := 45

  function Digits(n: nat): Bytes {
    if n < 10 then [(48 + n) as byte] else Digits(n / 10) + [(48 + n % 10) as byte]
  }

  /** `strconv.Itoa` */
  function Itoa(n: int): Bytes {
    if n < 0 then [MINUS] + Digits(-n) else Digits(n)
  }

  lemma {:induction false} DigitsParse(n: nat)
    ensures Digits(n) != [] && AllDigits(Digits(n), 10) && NumberOf(Digits(n), 10) == n
    ensures forall i | 0 <= i < |Digits(n)| :: 48 <= Digits(n)[i] <= 57
  {
    if n >= 10 {
      DigitsParse(n / 10);
      var d := Digits(n);
      assert d[..|d| - 1] == Digits(n / 10);
    } else {
      var d := Digits(n);
      assert d[..0] == [];
      assert NumberOf(d[..0], 10) == 0;
    }
  }
}
