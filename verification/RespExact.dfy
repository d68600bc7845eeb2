/** What the RESP readers accept, exactly: `readRESPString` and `readRESPArray` of
    internal/api/redis_queue_protocol.go and `readRESPBulk` of internal/home/certificate.go against the texts of a
    grammar. Each text is a value, the front of one, or neither. */
module RespExact {
  import opened Wrappers
  import opened ByteText
  import opened DecimalText
  import opened PaddedText
  import opened Resp

  // ---- lines -------------------------------------------------------------------------------------

  /** A line and its end: a line feed, with a carriage return before it unless the text is kept whole. */
  ghost predicate IsLine(text: Bytes, end: Bytes) {
    10 !in text && (end == [13, 10] || (end == [10] && (text == [] || text[|text| - 1] != 13)))
  }

  lemma LineIsRead(text: Bytes, end: Bytes, rest: Bytes)
    requires IsLine(text, end)
    ensures ReadLine(text + (end + rest)) == Ok(text, rest)
  {
    var s := text + (end + rest);
    var n := |text| + |end| - 1;
    assert s[n..n + 1] == [LF];
    forall j: nat | j < n
      ensures !OccursAt(s, [LF], j)
    {
      if j < |text| { assert s[j] == text[j] && text[j] in text; }
      assert s[j..j + 1][0] == s[j] != LF;
    }
    IndexIs(s, [LF], n);
    assert s[n + 1..] == rest;
    if end == [13, 10] {
      assert s[..n] == text + [CR];
    } else {
      assert s[..n] == text;
    }
  }

  lemma ReadIsLine(s: Bytes, text: Bytes, rest: Bytes) returns (end: Bytes)
    requires ReadLine(s) == Ok(text, rest)
    ensures IsLine(text, end) && s == text + (end + rest)
  {
    var i := Index(s, [LF]);
    assert s[i..i + 1] == [LF];
    forall j | 0 <= j < i
      ensures s[j] != 10
    {
      assert !OccursAt(s, [LF], j) && s[j..j + 1] == [s[j]];
    }
    end := if text == s[..i] then [10] else [13, 10];
    assert s == s[..i] + ([10] + rest);
    if text != s[..i] {
      assert s[..i] == text + [13];
    }
  }

  lemma NoLineFeedIsEof(s: Bytes)
    ensures ReadLine(s) == Eof <==> 10 !in s
  {
    if 10 in s {
      var j :| 0 <= j < |s| && s[j] == 10;
      assert s[j..j + 1] == [LF] && OccursAt(s, [LF], j);
    }
    var i := Index(s, [LF]);
    if i >= 0 {
      assert s[i] == s[i..i + 1][0] == 10;
    }
  }

  // ---- strings -----------------------------------------------------------------------------------

  datatype Form =
    | Payload(length: Decimal, end: Bytes, payload: Bytes)
    | NoPayload(length: Decimal, end: Bytes)
    | Simple(prefix: byte, text: Bytes, end: Bytes)
  {
    function Text(): Bytes {
      match this
      case Payload(length, end, payload) => [36] + (length.Text() + (end + (payload + [13, 10])))
      case NoPayload(length, end) => [36] + (length.Text() + end)
      case Simple(prefix, text, end) => [prefix] + (text + end)
    }

    function Value(): Bytes {
      match this
      case Payload(_, _, payload) => payload
      case NoPayload(_, _) => []
      case Simple(_, text, _) => text
    }

    ghost predicate Valid() {
      match this
      case Payload(length, end, payload) =>
        length.Valid() && IsLine(length.Text(), end) && length.Value() == |payload|
      case NoPayload(length, end) => length.Valid() && IsLine(length.Text(), end) && length.Value() < 0
      case Simple(prefix, text, end) => (prefix == 43 || prefix == 58) && IsLine(text, end)
    }
  }

  /** The proper front of a string. */
  datatype Front =
    | Nothing
    | OpenLine(prefix: byte, text: Bytes)
    | OpenPayload(length: Decimal, end: Bytes, part: Bytes)
  {
    function Text(): Bytes {
      match this
      case Nothing => []
      case OpenLine(prefix, text) => [prefix] + text
      case OpenPayload(length, end, part) => [36] + (length.Text() + (end + part))
    }

    ghost predicate Valid() {
      match this
      case Nothing => true
      case OpenLine(prefix, text) => (prefix == 36 || prefix == 43 || prefix == 58) && 10 !in text
      case OpenPayload(length, end, part) =>
        length.Valid() && IsLine(length.Text(), end) && 0 <= length.Value() && |part| < length.Value() + 2
    }
  }

  lemma LengthIsRead(length: Decimal, end: Bytes, tail: Bytes)
    requires length.Valid() && IsLine(length.Text(), end)
    ensures var s := [36] + (length.Text() + (end + tail));
            && s[1..] == length.Text() + (end + tail)
            && ReadLine(s[1..]) == Ok(length.Text(), tail)
            && ParseInt(length.Text(), 10) == Some(length.Value())
  {
    hide ReadLine, ParseInt, IsLine, Decimal.Valid, Decimal.Value, Decimal.Text;
    var s := [36] + (length.Text() + (end + tail));
    assert s[1..] == length.Text() + (end + tail);
    LineIsRead(length.Text(), end, tail);
    DecimalParses(length);
  }

  lemma PayloadText(length: Decimal, end: Bytes, payload: Bytes, rest: Bytes)
    ensures [36] + (length.Text() + (end + (payload + [13, 10] + rest)))
         == [36] + (length.Text() + (end + (payload + [13, 10]))) + rest
  {
    hide Decimal.Text;
  }

  lemma PayloadIsRead(length: Decimal, end: Bytes, payload: Bytes, rest: Bytes)
    requires length.Valid() && IsLine(length.Text(), end) && length.Value() == |payload|
    ensures ReadString([36] + (length.Text() + (end + (payload + [13, 10]))) + rest) == Ok(payload, rest)
  {
    hide ReadLine, ParseInt, IsLine, Decimal.Valid, Decimal.Value, Decimal.Text;
    var tail := payload + [13, 10] + rest;
    LengthIsRead(length, end, tail);
    PayloadText(length, end, payload, rest);
    assert tail[..|payload|] == payload && tail[|payload| + 2..] == rest;
  }

  lemma NoPayloadIsRead(length: Decimal, end: Bytes, rest: Bytes)
    requires length.Valid() && IsLine(length.Text(), end) && length.Value() < 0
    ensures ReadString([36] + (length.Text() + end) + rest) == Ok([], rest)
  {
    hide ReadLine, ParseInt, IsLine, Decimal.Valid, Decimal.Value, Decimal.Text;
    LengthIsRead(length, end, rest);
    assert [36] + (length.Text() + end) + rest == [36] + (length.Text() + (end + rest));
  }

  lemma SimpleIsRead(prefix: byte, text: Bytes, end: Bytes, rest: Bytes)
    requires (prefix == 43 || prefix == 58) && IsLine(text, end)
    ensures ReadString([prefix] + (text + end) + rest) == Ok(text, rest)
  {
    hide ReadLine, IsLine;
    assert ([prefix] + (text + end) + rest)[1..] == text + (end + rest);
    LineIsRead(text, end, rest);
  }

  lemma FormIsRead(f: Form, rest: Bytes)
    requires f.Valid()
    ensures ReadString(f.Text() + rest) == Ok(f.Value(), rest)
  {
    hide ReadString, IsLine, Decimal.Valid, Decimal.Value, Decimal.Text;
    match f
    case Payload(length, end, payload) => PayloadIsRead(length, end, payload, rest);
    case NoPayload(length, end) => NoPayloadIsRead(length, end, rest);
    case Simple(prefix, text, end) => SimpleIsRead(prefix, text, end, rest);
  }

  /** What is read from behind the first line of a bulk string. */
  ghost function ReadPayload(length: int, tail: Bytes): Parsed<Bytes> {
    if length < 0 then Ok([], tail)
    else if |tail| < length + 2 then Eof
    else if tail[length] != CR || tail[length + 1] != LF then ProtocolError
    else Ok(tail[..length], tail[length + 2..])
  }

  lemma ReadLength(s: Bytes) returns (length: Decimal, end: Bytes, tail: Bytes)
    requires s != [] && s[0] == 36 && ReadString(s).Ok?
    ensures length.Valid() && IsLine(length.Text(), end) && s == [36] + (length.Text() + (end + tail))
    ensures ReadString(s) == ReadPayload(length.Value(), tail)
  {
    hide ReadLine, ParseInt, IsLine, Decimal.Valid, Decimal.Value, Decimal.Text;
    var line := ReadLine(s[1..]);
    end := ReadIsLine(s[1..], line.value, line.rest);
    length := ParsedIsDecimal(line.value, Atoi(line.value).value);
    tail := line.rest;
    assert s == [s[0]] + s[1..];
  }

  lemma NoPayloadText(length: Decimal, end: Bytes, rest: Bytes)
    ensures [36] + (length.Text() + (end + rest)) == [36] + (length.Text() + end) + rest
  {
    hide Decimal.Text;
  }

  lemma ReadIsPayload(s: Bytes, v: Bytes, rest: Bytes) returns (f: Form)
    requires s != [] && s[0] == 36 && ReadString(s) == Ok(v, rest)
    ensures f.Valid() && f.Value() == v && s == f.Text() + rest
  {
    hide ReadString, IsLine, Decimal.Valid, Decimal.Value, Decimal.Text;
    var length, end, tail := ReadLength(s);
    if length.Value() < 0 {
      f := NoPayload(length, end);
      NoPayloadText(length, end, rest);
    } else {
      f := Payload(length, end, v);
      PayloadStands(tail, length.Value(), v, rest);
      PayloadText(length, end, v, rest);
    }
  }

  lemma PayloadStands(tail: Bytes, n: nat, v: Bytes, rest: Bytes)
    requires n + 2 <= |tail| && tail[n] == 13 && tail[n + 1] == 10 && v == tail[..n] && rest == tail[n + 2..]
    ensures tail == v + [13, 10] + rest
  {
  }

  lemma ReadIsForm(s: Bytes, v: Bytes, rest: Bytes) returns (f: Form)
    requires ReadString(s) == Ok(v, rest)
    ensures f.Valid() && f.Value() == v && s == f.Text() + rest
  {
    if s[0] == 36 {
      hide *;
      f := ReadIsPayload(s, v, rest);
    } else {
      hide ReadLine, IsLine;
      var end := ReadIsLine(s[1..], v, rest);
      assert s == [s[0]] + s[1..];
      f := Simple(s[0], v, end);
      assert s == f.Text() + rest;
    }
  }

  /** A string is read exactly when it stands in front of the rest. */
  lemma StringExactly(s: Bytes, v: Bytes, rest: Bytes)
    ensures ReadString(s) == Ok(v, rest)
       <==> exists f: Form :: f.Valid() && f.Value() == v && s == f.Text() + rest
  {
    hide *;
    if ReadString(s) == Ok(v, rest) {
      var f := ReadIsForm(s, v, rest);
    }
    if exists f: Form :: f.Valid() && f.Value() == v && s == f.Text() + rest {
      var f: Form :| f.Valid() && f.Value() == v && s == f.Text() + rest;
      FormIsRead(f, rest);
    }
  }

  lemma FrontIsEof(u: Front)
    requires u.Valid()
    ensures ReadString(u.Text()) == Eof
  {
    hide ReadLine, ParseInt, IsLine, Decimal.Valid, Decimal.Value, Decimal.Text;
    var s := u.Text();
    match u
    case Nothing =>
    case OpenLine(prefix, text) =>
      assert s[1..] == text;
      NoLineFeedIsEof(text);
    case OpenPayload(length, end, part) =>
      LengthIsRead(length, end, part);
  }

  lemma EofIsFront(s: Bytes) returns (u: Front)
    requires ReadString(s) == Eof
    ensures u.Valid() && u.Text() == s
  {
    hide ReadLine, ParseInt, IsLine, Decimal.Valid, Decimal.Value, Decimal.Text;
    if s == [] {
      u := Nothing;
    } else {
      assert s == [s[0]] + s[1..];
      NoLineFeedIsEof(s[1..]);
      var line := ReadLine(s[1..]);
      if line.Eof? {
        u := OpenLine(s[0], s[1..]);
      } else {
        var end := ReadIsLine(s[1..], line.value, line.rest);
        var length := ParsedIsDecimal(line.value, Atoi(line.value).value);
        u := OpenPayload(length, end, line.rest);
      }
    }
  }

  /** More is awaited exactly when the front of a string is all there is. */
  lemma StringUnfinished(s: Bytes)
    ensures ReadString(s) == Eof <==> exists u: Front :: u.Valid() && u.Text() == s
  {
    hide *;
    if ReadString(s) == Eof {
      var u := EofIsFront(s);
    }
    if exists u: Front :: u.Valid() && u.Text() == s {
      var u: Front :| u.Valid() && u.Text() == s;
      FrontIsEof(u);
    }
  }

  // ---- arrays ------------------------------------------------------------------------------------

  ghost function FormsText(fs: seq<Form>): Bytes {
    if fs == [] then [] else fs[0].Text() + FormsText(fs[1..])
  }

  ghost function FormsValues(fs: seq<Form>): seq<Bytes> {
    if fs == [] then [] else [fs[0].Value()] + FormsValues(fs[1..])
  }

  ghost predicate FormsValid(fs: seq<Form>) {
    forall i | 0 <= i < |fs| :: fs[i].Valid()
  }

  /** The forms at the front of a text with the values read from them, when `count` values can be read. */
  lemma {:induction false} FormsAreRead(fs: seq<Form>, s: Bytes)
    requires FormsValid(fs)
    ensures ReadStrings(FormsText(fs) + s, |fs|) == Ok(FormsValues(fs), s)
    decreases |fs|
  {
    hide ReadString, Form.Text, Form.Value, Form.Valid;
    if fs == [] {
      assert [] + s == s;
    } else {
      var more := FormsText(fs[1..]);
      assert fs[0].Text() + more + s == fs[0].Text() + (more + s);
      FormIsRead(fs[0], more + s);
      FormsAreRead(fs[1..], s);
    }
  }

  lemma {:induction false} ReadAreForms(s: Bytes, count: nat, vs: seq<Bytes>, rest: Bytes) returns (fs: seq<Form>)
    requires ReadStrings(s, count) == Ok(vs, rest)
    ensures |fs| == count && FormsValid(fs) && FormsValues(fs) == vs && s == FormsText(fs) + rest
    decreases count
  {
    hide ReadString, Form.Text, Form.Value, Form.Valid;
    if count == 0 {
      fs := [];
      assert s == [] + rest;
    } else {
      var first := ReadString(s);
      var f := ReadIsForm(s, first.value, first.rest);
      var more := ReadAreForms(first.rest, count - 1, vs[1..], rest);
      fs := [f] + more;
      assert fs[1..] == more;
      assert f.Text() + (FormsText(more) + rest) == f.Text() + FormsText(more) + rest;
    }
  }

  datatype Command = Command(count: Decimal, end: Bytes, forms: seq<Form>) {
    ghost function Text(): Bytes {
      [42] + (count.Text() + (end + FormsText(forms)))
    }

    ghost predicate Valid() {
      count.Valid() && IsLine(count.Text(), end) && count.Value() == |forms| && FormsValid(forms)
    }
  }

  lemma CountIsRead(count: Decimal, end: Bytes, s: Bytes)
    requires count.Valid() && IsLine(count.Text(), end) && count.Value() >= 0
    ensures ReadArray([42] + (count.Text() + (end + s))) == ReadStrings(s, count.Value())
  {
    hide ReadLine, ReadStrings, ParseInt, IsLine, Decimal.Valid, Decimal.Value, Decimal.Text;
    var all := [42] + (count.Text() + (end + s));
    assert all[1..] == count.Text() + (end + s);
    LineIsRead(count.Text(), end, s);
    DecimalParses(count);
  }

  lemma ReadIsCount(s: Bytes) returns (count: Decimal, end: Bytes, tail: Bytes)
    requires ReadArray(s) != ProtocolError && s != [] && 10 in s[1..]
    ensures count.Valid() && IsLine(count.Text(), end) && count.Value() >= 0
    ensures s == [42] + (count.Text() + (end + tail))
  {
    hide ReadLine, ReadStrings, ParseInt, IsLine, Decimal.Valid, Decimal.Value, Decimal.Text;
    NoLineFeedIsEof(s[1..]);
    var line := ReadLine(s[1..]);
    assert line.Ok?;
    end := ReadIsLine(s[1..], line.value, line.rest);
    count := ParsedIsDecimal(line.value, Atoi(line.value).value);
    tail := line.rest;
    assert s == [s[0]] + s[1..];
  }

  lemma CommandIsRead(c: Command, rest: Bytes)
    requires c.Valid()
    ensures ReadArray(c.Text() + rest) == Ok(FormsValues(c.forms), rest)
  {
    hide ReadArray, ReadStrings, FormsText, FormsValues, IsLine, Decimal.Valid, Decimal.Value, Decimal.Text;
    CountIsRead(c.count, c.end, FormsText(c.forms) + rest);
    CommandText(c, rest);
    FormsAreRead(c.forms, rest);
  }

  lemma ReadHasLine(s: Bytes)
    requires ReadArray(s).Ok?
    ensures s != [] && 10 in s[1..]
  {
    hide ReadStrings, ParseInt, ReadLine;
    if s != [] {
      NoLineFeedIsEof(s[1..]);
    }
  }

  lemma ReadIsCommand(s: Bytes, vs: seq<Bytes>, rest: Bytes) returns (c: Command)
    requires ReadArray(s) == Ok(vs, rest)
    ensures c.Valid() && FormsValues(c.forms) == vs && s == c.Text() + rest
  {
    hide ReadArray, ReadStrings, FormsText, FormsValues, IsLine, Decimal.Valid, Decimal.Value, Decimal.Text;
    ReadHasLine(s);
    var count, end, tail := ReadIsCount(s);
    CountIsRead(count, end, tail);
    var fs := ReadAreForms(tail, count.Value(), vs, rest);
    c := Command(count, end, fs);
    assert s == [42] + (count.Text() + (end + (FormsText(fs) + rest)));
    CommandText(c, rest);
  }

  lemma CommandText(c: Command, rest: Bytes)
    ensures c.Text() + rest == [42] + (c.count.Text() + (c.end + (FormsText(c.forms) + rest)))
  {
    hide FormsText, Decimal.Text;
  }

  /** A command is read exactly when it stands in front of the rest. */
  lemma ArrayExactly(s: Bytes, vs: seq<Bytes>, rest: Bytes)
    ensures ReadArray(s) == Ok(vs, rest)
       <==> exists c: Command :: c.Valid() && FormsValues(c.forms) == vs && s == c.Text() + rest
  {
    hide *;
    if ReadArray(s) == Ok(vs, rest) {
      var c := ReadIsCommand(s, vs, rest);
    }
    if exists c: Command :: c.Valid() && FormsValues(c.forms) == vs && s == c.Text() + rest {
      var c: Command :| c.Valid() && FormsValues(c.forms) == vs && s == c.Text() + rest;
      CommandIsRead(c, rest);
    }
  }

  /** The proper front of a command. */
  datatype CommandFront =
    | NoCommand
    | OpenCount(text: Bytes)
    | OpenForms(count: Decimal, end: Bytes, forms: seq<Form>, last: Front)
  {
    ghost function Text(): Bytes {
      match this
      case NoCommand => []
      case OpenCount(text) => [42] + text
      case OpenForms(count, end, forms, last) => [42] + (count.Text() + (end + (FormsText(forms) + last.Text())))
    }

    ghost predicate Valid() {
      match this
      case NoCommand => true
      case OpenCount(text) => 10 !in text
      case OpenForms(count, end, forms, last) =>
        && count.Valid() && IsLine(count.Text(), end) && |forms| < count.Value()
        && FormsValid(forms) && last.Valid()
    }
  }

  lemma {:induction false} FrontFormsAreEof(fs: seq<Form>, u: Front, count: nat)
    requires FormsValid(fs) && u.Valid() && |fs| < count
    ensures ReadStrings(FormsText(fs) + u.Text(), count) == Eof
    decreases |fs|
  {
    hide ReadString, Form.Text, Form.Value, Form.Valid, Front.Text, Front.Valid;
    if fs == [] {
      assert [] + u.Text() == u.Text();
      FrontIsEof(u);
    } else {
      var more := FormsText(fs[1..]) + u.Text();
      assert fs[0].Text() + FormsText(fs[1..]) + u.Text() == fs[0].Text() + more;
      FormIsRead(fs[0], more);
      FrontFormsAreEof(fs[1..], u, count - 1);
    }
  }

  lemma {:induction false} EofIsFrontForms(s: Bytes, count: nat) returns (fs: seq<Form>, u: Front)
    requires ReadStrings(s, count) == Eof
    ensures FormsValid(fs) && u.Valid() && |fs| < count && s == FormsText(fs) + u.Text()
    decreases count
  {
    hide ReadString, Form.Text, Form.Value, Form.Valid, Front.Text, Front.Valid;
    var first := ReadString(s);
    if first.Eof? {
      u := EofIsFront(s);
      fs := [];
      assert s == [] + u.Text();
    } else {
      var f := ReadIsForm(s, first.value, first.rest);
      var more;
      more, u := EofIsFrontForms(first.rest, count - 1);
      fs := [f] + more;
      assert fs[1..] == more;
      assert f.Text() + (FormsText(more) + u.Text()) == f.Text() + FormsText(more) + u.Text();
    }
  }

  lemma FrontIsAwaited(u: CommandFront)
    requires u.Valid()
    ensures ReadArray(u.Text()) == Eof
  {
    match u
    case NoCommand =>
    case OpenCount(text) =>
      hide ReadStrings, ParseInt, ReadLine;
      assert u.Text()[1..] == text;
      NoLineFeedIsEof(text);
    case OpenForms(count, end, forms, last) =>
      hide ReadArray, FormsText, IsLine, Decimal.Valid, Decimal.Value, Decimal.Text, Front.Text, Front.Valid;
      CountIsRead(count, end, FormsText(forms) + last.Text());
      FrontFormsAreEof(forms, last, count.Value());
  }

  lemma AwaitedIsFront(s: Bytes) returns (u: CommandFront)
    requires ReadArray(s) == Eof
    ensures u.Valid() && u.Text() == s
  {
    if s == [] {
      u := NoCommand;
    } else if 10 !in s[1..] {
      hide ReadStrings;
      u := OpenCount(s[1..]);
      assert s == [s[0]] + s[1..];
    } else {
      hide ReadArray, FormsText, IsLine, Decimal.Valid, Decimal.Value, Decimal.Text, Front.Text, Front.Valid;
      var count, end, tail := ReadIsCount(s);
      CountIsRead(count, end, tail);
      var fs, last := EofIsFrontForms(tail, count.Value());
      u := OpenForms(count, end, fs, last);
    }
  }

  /** More of a command is awaited exactly when the front of one is all there is; what is neither a command
      nor the front of one is a protocol error. */
  lemma ArrayUnfinished(s: Bytes)
    ensures ReadArray(s) == Eof <==> exists u: CommandFront :: u.Valid() && u.Text() == s
  {
    hide *;
    if ReadArray(s) == Eof {
      var u := AwaitedIsFront(s);
    }
    if exists u: CommandFront :: u.Valid() && u.Text() == s {
      var u: CommandFront :| u.Valid() && u.Text() == s;
      FrontIsAwaited(u);
    }
  }

  // ---- the bulk reply of the certificate client --------------------------------------------------

  /** The line with the length, the payload, and the two bytes that nobody looks at. */
  datatype Reply = Reply(line: Padded, length: Decimal, payload: Bytes, ending: Bytes) {
    function Text(): Bytes {
      [36] + (line.Text() + ([10] + (payload + ending)))
    }

    ghost predicate Valid() {
      && line.Valid() && 10 !in line.Text() && length.Valid() && line.core == length.Text()
      && length.Value() == |payload| && |ending| == 2
    }
  }

  /** The length on the line of a reply, if it is a number. */
  lemma ReplyLine(line: Bytes, tail: Bytes)
    requires 10 !in line
    ensures var s := line + ([10] + tail);
            && Index(s, [LF]) == |line| && s[|line| + 1..] == tail
            && TrimSpace(s[..|line| + 1]) == TrimSpace(line)
  {
    var s, n := line + ([10] + tail), |line|;
    assert s[n..n + 1] == [LF];
    forall j: nat | j < n
      ensures !OccursAt(s, [LF], j)
    {
      assert s[j] == line[j] && line[j] in line;
      assert s[j..j + 1][0] == s[j] != LF;
    }
    IndexIs(s, [LF], n);
    var p := Trimmed(line);
    var q := p.(right := p.right + [10]);
    assert q.Text() == line + [10] == s[..n + 1];
    TrimmedCore(q);
  }

  lemma ReplyIsRead(r: Reply, rest: Bytes)
    requires r.Valid()
    ensures ReadBulkReply(r.Text() + rest) == Ok(r.payload, rest)
  {
    hide ReadBulkReply, ParseInt, TrimSpace, Padded.Valid, Padded.Text, Decimal.Valid, Decimal.Value, Decimal.Text;
    var tail := r.payload + r.ending + rest;
    ReplyText(r, rest);
    ReplyParts(r.line.Text(), tail);
    TrimmedCore(r.line);
    DecimalParses(r.length);
    assert tail[..|r.payload|] == r.payload && tail[|r.payload| + 2..] == rest;
  }

  lemma FirstLine(s: Bytes) returns (line: Bytes, tail: Bytes)
    requires 10 in s
    ensures 10 !in line && s == line + ([10] + tail)
  {
    var i := Index(s, [LF]);
    var j :| 0 <= j < |s| && s[j] == 10;
    assert s[j..j + 1] == [LF] && OccursAt(s, [LF], j);
    line, tail := s[..i], s[i + 1..];
    assert s[i..i + 1][0] == LF;
    forall k | 0 <= k < i
      ensures s[k] != 10
    {
      assert !OccursAt(s, [LF], k) && s[k..k + 1] == [s[k]];
    }
  }

  lemma NoLineNoReply(s: Bytes)
    requires s != [] && 10 !in s[1..]
    ensures ReadBulkReply(s) == if s[0] == 36 then Eof else ProtocolError
  {
    NoLineFeedIsEof(s[1..]);
  }

  lemma ReadIsReply(s: Bytes, v: Bytes, rest: Bytes) returns (r: Reply)
    requires ReadBulkReply(s) == Ok(v, rest)
    ensures r.Valid() && r.payload == v && s == r.Text() + rest
  {
    hide *;
    ReplyHasLine(s);
    var line, tail := FirstLine(s[1..]);
    assert s == [36] + (line + ([10] + tail));
    ReplyParts(line, tail);
    r := SizedReply(line, tail, v, rest);
  }

  lemma SizedReply(line: Bytes, tail: Bytes, v: Bytes, rest: Bytes) returns (r: Reply)
    requires 10 !in line && ReadSized(ParseInt(TrimSpace(line), 10), tail) == Ok(v, rest)
    ensures r.Valid() && r.payload == v && [36] + (line + ([10] + tail)) == r.Text() + rest
  {
    hide ParseInt, TrimSpace, Padded.Valid, Padded.Text, Decimal.Valid, Decimal.Value, Decimal.Text;
    var p := Trimmed(line);
    var length := ParsedIsDecimal(p.core, ParseInt(p.core, 10).value);
    r := Reply(p, length, v, tail[|v|..|v| + 2]);
    assert tail == v + tail[|v|..|v| + 2] + rest;
    ReplyText(r, rest);
  }

  lemma ReplyText(r: Reply, rest: Bytes)
    ensures r.Text() + rest == [36] + (r.line.Text() + ([10] + (r.payload + r.ending + rest)))
  {
    hide Padded.Text;
  }

  lemma ReplyHasLine(s: Bytes)
    requires ReadBulkReply(s).Ok?
    ensures s != [] && s[0] == 36 && 10 in s[1..]
  {
    hide ParseInt, TrimSpace, Index;
    if s != [] && 10 !in s[1..] { NoLineNoReply(s); }
  }

  /** What is read from behind the first line of a reply. */
  ghost function ReadSized(length: Option<int>, tail: Bytes): Parsed<Bytes> {
    if length.None? || length.value < 0 then ProtocolError
    else if |tail| < length.value + 2 then Eof
    else Ok(tail[..length.value], tail[length.value + 2..])
  }

  lemma ReplyParts(line: Bytes, tail: Bytes)
    requires 10 !in line
    ensures ReadBulkReply([36] + (line + ([10] + tail))) == ReadSized(ParseInt(TrimSpace(line), 10), tail)
  {
    hide Index, ParseInt, TrimSpace;
    var s := [36] + (line + ([10] + tail));
    assert s[1..] == line + ([10] + tail);
    ReplyLine(line, tail);
  }

  /** A bulk reply is read exactly when it stands in front of the rest. */
  lemma ReplyExactly(s: Bytes, v: Bytes, rest: Bytes)
    ensures ReadBulkReply(s) == Ok(v, rest)
       <==> exists r: Reply :: r.Valid() && r.payload == v && s == r.Text() + rest
  {
    hide *;
    if ReadBulkReply(s) == Ok(v, rest) {
      var r := ReadIsReply(s, v, rest);
    }
    if exists r: Reply :: r.Valid() && r.payload == v && s == r.Text() + rest {
      var r: Reply :| r.Valid() && r.payload == v && s == r.Text() + rest;
      ReplyIsRead(r, rest);
    }
  }

  /** The proper front of a reply. */
  datatype ReplyFront = NoReply | OpenLength(text: Bytes) | OpenReply(line: Padded, length: Decimal, part: Bytes) {
    function Text(): Bytes {
      match this
      case NoReply => []
      case OpenLength(text) => [36] + text
      case OpenReply(line, _, part) => [36] + (line.Text() + ([10] + part))
    }

    ghost predicate Valid() {
      match this
      case NoReply => true
      case OpenLength(text) => 10 !in text
      case OpenReply(line, length, part) =>
        && line.Valid() && 10 !in line.Text() && length.Valid() && line.core == length.Text()
        && 0 <= length.Value() && |part| < length.Value() + 2
    }
  }

  lemma ReplyFrontIsEof(u: ReplyFront)
    requires u.Valid()
    ensures ReadBulkReply(u.Text()) == Eof
  {
    hide Index, ParseInt, TrimSpace, Padded.Valid, Padded.Text, Decimal.Valid, Decimal.Value, Decimal.Text;
    match u
    case NoReply =>
    case OpenLength(text) =>
      assert u.Text()[1..] == text;
      NoLineNoReply(u.Text());
    case OpenReply(line, length, part) =>
      ReplyParts(line.Text(), part);
      TrimmedCore(line);
      DecimalParses(length);
  }

  lemma EofIsReplyFront(s: Bytes) returns (u: ReplyFront)
    requires ReadBulkReply(s) == Eof
    ensures u.Valid() && u.Text() == s
  {
    hide Index, ParseInt, TrimSpace, Padded.Valid, Padded.Text, Decimal.Valid, Decimal.Value, Decimal.Text;
    if s == [] {
      u := NoReply;
    } else if 10 !in s[1..] {
      NoLineNoReply(s);
      u := OpenLength(s[1..]);
      assert s == [36] + s[1..];
    } else {
      var line, tail := FirstLine(s[1..]);
      assert s == [s[0]] + (line + ([10] + tail));
      ReplyParts(line, tail);
      var p := Trimmed(line);
      var length := ParsedIsDecimal(p.core, ParseInt(p.core, 10).value);
      u := OpenReply(p, length, tail);
    }
  }

  /** More of a reply is awaited exactly when the front of one is all there is. */
  lemma ReplyUnfinished(s: Bytes)
    ensures ReadBulkReply(s) == Eof <==> exists u: ReplyFront :: u.Valid() && u.Text() == s
  {
    hide *;
    if ReadBulkReply(s) == Eof {
      var u := EofIsReplyFront(s);
    }
    if exists u: ReplyFront :: u.Valid() && u.Text() == s {
      var u: ReplyFront :| u.Valid() && u.Text() == s;
      ReplyFrontIsEof(u);
    }
  }
}
