/** Texts with white space around them, and what `strings.TrimSpace` leaves of them. */
module PaddedText {
  import opened ByteText

  /** A text with white space around it. */
  datatype Padded = Padded(left: Bytes, core: Bytes, right: Bytes) {
    function Text(): Bytes {
      left + core + right
    }

    ghost predicate Valid() {
      && Blank(left) && Blank(right)
      && (core != [] ==> !Blank(core[..1]) && !Blank(core[|core| - 1..]))
    }
  }

  ghost predicate Blank(s: Bytes) {
    forall i | 0 <= i < |s| :: s[i] == 32 || 9 <= s[i] <= 13
  }

  lemma {:induction false} TrimLeftOf(left: Bytes, rest: Bytes)
    requires Blank(left) && (rest != [] ==> !Blank(rest[..1]))
    ensures TrimLeft(left + rest) == rest
  {
    if left == [] {
      assert left + rest == rest;
    } else {
      assert (left + rest)[1..] == left[1..] + rest;
      TrimLeftOf(left[1..], rest);
    }
  }

  lemma {:induction false} TrimRightTo(s: Bytes, n: nat)
    requires n <= |s| && (n > 0 ==> !IsSpace(s[n - 1])) && forall i | n <= i < |s| :: IsSpace(s[i])
    ensures TrimRight(s) == s[..n]
    decreases |s|
  {
    if n < |s| {
      var front := s[..|s| - 1];
      assert forall i | 0 <= i < |front| :: front[i] == s[i];
      TrimRightTo(front, n);
      assert front[..n] == s[..n];
    } else {
      assert s[..n] == s;
    }
  }

  /** Trimming leaves what stands between the white space. */
  lemma TrimmedCore(p: Padded)
    requires p.Valid()
    ensures TrimSpace(p.Text()) == p.core
  {
    if p.core == [] {
      assert p.Text() == p.left + p.right;
      assert Blank(p.left + p.right);
      assert p.left + p.right + [] == p.left + p.right;
      TrimLeftOf(p.left + p.right, []);
    } else {
      var rest := p.core + p.right;
      assert p.Text() == p.left + rest && rest[..1] == p.core[..1];
      TrimLeftOf(p.left, rest);
      assert !IsSpace(rest[|p.core| - 1]) by {
        assert p.core[|p.core| - 1..][0] == rest[|p.core| - 1];
      }
      TrimRightTo(rest, |p.core|);
    }
  }

  lemma NoSides(s: Bytes)
    ensures [] + s + [] == s
  {
  }

  lemma BlankSum(a: Bytes, b: Bytes)
    requires Blank(a) && Blank(b)
    ensures Blank(a + b)
  {
  }

  lemma {:induction false} Unpad(s: Bytes) returns (p: Padded)
    ensures p.Valid() && p.Text() == s
  {
    var n := |s| - 1;
    assert Blank([]) && (s != [] || Blank(s));
    hide Blank;
    if Blank(s) {
      p := Padded(s, [], []);
      assert s + [] + [] == s;
    } else if Blank(s[..1]) {
      p := Unpad(s[1..]);
      BlankSum(s[..1], p.left);
      assert s == s[..1] + s[1..];
      Associated(s[..1], p.left + p.core, p.right);
      Associated(s[..1], p.left, p.core);
      p := p.(left := s[..1] + p.left);
    } else if Blank(s[n..]) {
      p := Unpad(s[..n]);
      BlankSum(p.right, s[n..]);
      assert s == s[..n] + s[n..];
      Associated(p.left + p.core, p.right, s[n..]);
      p := p.(right := p.right + s[n..]);
    } else {
      p := Padded([], s, []);
      NoSides(s);
    }
  }

  lemma Trimmed(s: Bytes) returns (p: Padded)
    ensures p.Valid() && p.Text() == s && TrimSpace(s) == p.core
  {
    p := Unpad(s);
    TrimmedCore(p);
  }
}
