/** Decimal numbers as texts: what `strconv.ParseInt(s, 10, 64)` accepts, exactly. */
module DecimalText {
  import opened Wrappers
  import opened ByteText

  function Zeros(count: nat): Bytes {
    seq(count, _ => 48)
  }

  lemma {:induction false} LeadingZeros(zeros: nat, digits: Bytes)
    ensures NumberOf(Zeros(zeros) + digits, 10) == NumberOf(digits, 10)
    decreases zeros + |digits|
  {
    var s := Zeros(zeros) + digits;
    if digits != [] {
      assert s[..|s| - 1] == Zeros(zeros) + digits[..|digits| - 1];
      LeadingZeros(zeros, digits[..|digits| - 1]);
    } else if zeros > 0 {
      assert s[..|s| - 1] == Zeros(zeros - 1) + [];
      LeadingZeros(zeros - 1, []);
    }
  }

  lemma DigitsParsed(digits: Bytes)
    requires digits != [] && AllDigits(digits, 10)
    ensures ParseInt(digits, 10) == if NumberOf(digits, 10) <= MAX_INT64 then Some(NumberOf(digits, 10)) else None
  {
    hide NumberOf;
    assert DigitValue(digits[0]) < 10;
  }

  lemma LastDigit(s: Bytes)
    requires s != [] && AllDigits(s, 10)
    ensures var front, d := s[..|s| - 1], DigitValue(s[|s| - 1]);
      && AllDigits(front, 10) && d < 10 && s[|s| - 1] == (48 + d) as byte && s == front + [(48 + d) as byte]
      && NumberOf(s, 10) == NumberOf(front, 10) * 10 + d
  {
    var front, last := s[..|s| - 1], s[|s| - 1];
    assert forall i | 0 <= i < |front| :: front[i] == s[i];
    assert DigitValue(last) < 10;
  }

  lemma DigitsOfLonger(n: nat, d: nat)
    requires n > 0 && d < 10
    ensures Digits(n * 10 + d) == Digits(n) + [(48 + d) as byte]
  {
    assert (n * 10 + d) / 10 == n && (n * 10 + d) % 10 == d;
  }

  lemma DigitsOfDigit(d: nat)
    requires d < 10
    ensures Digits(d) == [(48 + d) as byte]
  {
  }

  /** One digit, after zeros only. */
  lemma OneDigit(s: Bytes)
    requires s != [] && AllDigits(s, 10) && NumberOf(s[..|s| - 1], 10) == 0
    ensures s == Zeros(|s| - 1) + Digits(NumberOf(s, 10))
  {
    hide *;
    LastDigit(s);
    var front, d := s[..|s| - 1], DigitValue(s[|s| - 1]);
    AllZeros(front);
    DigitsOfDigit(d);
    assert |front| == |s| - 1;
    assert NumberOf(s, 10) == d;
  }

  /** A text of digits is a number with zeros before it. */
  lemma {:induction false} DigitsAre(s: Bytes) returns (zeros: nat)
    requires s != [] && AllDigits(s, 10)
    ensures s == Zeros(zeros) + Digits(NumberOf(s, 10))
  {
    var front := s[..|s| - 1];
    LastDigit(s);
    if NumberOf(front, 10) == 0 {
      zeros := |s| - 1;
      OneDigit(s);
    } else {
      var d := DigitValue(s[|s| - 1]);
      assert front != [];
      hide AllDigits, NumberOf, DigitValue, Digits;
      zeros := DigitsAre(front);
      DigitsOfLonger(NumberOf(front, 10), d);
      Associated(Zeros(zeros), Digits(NumberOf(front, 10)), [(48 + d) as byte]);
    }
  }

  lemma {:induction false} AllZeros(s: Bytes)
    requires AllDigits(s, 10) && NumberOf(s, 10) == 0
    ensures s == Zeros(|s|)
  {
    if s != [] {
      var front := s[..|s| - 1];
      assert forall i | 0 <= i < |front| :: front[i] == s[i];
      assert DigitValue(s[|s| - 1]) < 10;
      AllZeros(front);
      assert s == front + [s[|s| - 1]];
    }
  }

  // ---- signed numbers ----------------------------------------------------------------------------

  /** A number as it may be written: a sign or none, zeros, and the digits of its size. */
  datatype Decimal = Decimal(sign: Bytes, zeros: nat, size: nat) {
    function Text(): Bytes {
      sign + (Zeros(zeros) + Itoa(size))
    }

    function Value(): int {
      if sign == [MINUS] then -(size as int) else size
    }

    ghost predicate Valid() {
      sign in {[], [43], [45]} && -0x8000_0000_0000_0000 <= Value() <= 0x7fff_ffff_ffff_ffff
    }
  }

  lemma SizeDigits(zeros: nat, size: nat)
    ensures var digits := Zeros(zeros) + Itoa(size);
            digits != [] && AllDigits(digits, 10) && NumberOf(digits, 10) == size
  {
    DigitsParse(size);
    LeadingZeros(zeros, Itoa(size));
  }

  lemma SignedDigits(sign: Bytes, digits: Bytes, n: int)
    requires sign in {[], [43], [45]} && digits != [] && AllDigits(digits, 10)
    requires n == if sign == [45] then -(NumberOf(digits, 10) as int) else NumberOf(digits, 10)
    requires -0x8000_0000_0000_0000 <= n <= 0x7fff_ffff_ffff_ffff
    ensures ParseInt(sign + digits, 10) == Some(n)
  {
    FirstIsDigit(digits);
    hide AllDigits, NumberOf;
    if sign == [] {
      assert sign + digits == digits;
    } else {
      assert (sign + digits)[0] == sign[0] && (sign + digits)[1..] == digits;
    }
  }

  lemma DecimalParses(d: Decimal)
    requires d.Valid()
    ensures ParseInt(d.Text(), 10) == Some(d.Value())
  {
    hide ParseInt, AllDigits, NumberOf, Itoa;
    SizeDigits(d.zeros, d.size);
    SignedDigits(d.sign, Zeros(d.zeros) + Itoa(d.size), d.Value());
  }

  lemma FirstIsDigit(digits: Bytes)
    requires digits != [] && AllDigits(digits, 10)
    ensures digits[0] != 43 && digits[0] != 45
  {
    assert DigitValue(digits[0]) < 10;
  }

  lemma ParsedParts(s: Bytes, n: int) returns (sign: Bytes, digits: Bytes)
    requires ParseInt(s, 10) == Some(n)
    ensures s == sign + digits && sign in {[], [43], [45]} && digits != [] && AllDigits(digits, 10)
    ensures n == if sign == [45] then -(NumberOf(digits, 10) as int) else NumberOf(digits, 10)
    ensures -0x8000_0000_0000_0000 <= n <= 0x7fff_ffff_ffff_ffff
  {
    if s[0] == 43 || s[0] == 45 {
      sign, digits := [s[0]], s[1..];
    } else {
      sign, digits := [], s;
    }
  }

  lemma ParsedIsDecimal(s: Bytes, n: int) returns (d: Decimal)
    requires ParseInt(s, 10) == Some(n)
    ensures d.Valid() && d.Text() == s && d.Value() == n
  {
    var sign, digits := ParsedParts(s, n);
    hide ParseInt, NumberOf, AllDigits, Digits;
    var zeros := DigitsAre(digits);
    d := Decimal(sign, zeros, NumberOf(digits, 10));
  }

  /** A text is read as a number exactly when it is a sign or none, zeros, and the digits of its size, within
      64 bits. */
  lemma ParsesExactly(s: Bytes, n: int)
    ensures ParseInt(s, 10) == Some(n) <==> exists d: Decimal :: d.Valid() && d.Text() == s && d.Value() == n
  {
    hide ParseInt, Decimal.Text, Decimal.Valid, Decimal.Value;
    if ParseInt(s, 10) == Some(n) {
      var d := ParsedIsDecimal(s, n);
    }
    if exists d: Decimal :: d.Valid() && d.Text() == s && d.Value() == n {
      var d: Decimal :| d.Valid() && d.Text() == s && d.Value() == n;
      DecimalParses(d);
    }
  }
}
