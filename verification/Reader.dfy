/** The strict reader `strict_json_loads`, and the round trip with the canonical printer. */
module Reader {
  import opened Wrappers
  import opened Canonical

  // ----- lexing -----

  predicate IsSpace(c: CodePoint) {
    c == 32 || c == 9 || c == 10 || c == 13
  }

  function SkipSpace(t: Text): (r: Text)
    ensures |r| <= |t|
  {
    if t != [] && IsSpace(t[0]) then SkipSpace(t[1..]) else t
  }

  predicate IsDigit(c: CodePoint) {
    48 <= c <= 57
  }

  function HexValue(c: CodePoint): Option<nat> {
    if IsDigit(c) then Some(c - 48)
    else if 97 <= c <= 102 then Some(c - 87)
    else if 65 <= c <= 70 then Some(c - 55)
    else None
  }

  /** The code unit of a `\uXXXX` escape, given the text after `\u`. */
  function ReadUnit(t: Text): (r: Option<nat>)
    ensures r.Some? ==> |t| >= 4 && r.value < 0x10000
  {
    if |t| < 4 then None
    else
      var a, b, c, d := HexValue(t[0]), HexValue(t[1]), HexValue(t[2]), HexValue(t[3]);
      if a.None? || b.None? || c.None? || d.None? || a.value > 15 || b.value > 15 || c.value > 15 || d.value > 15 then None
      else Some(a.value * 0x1000 + b.value * 0x100 + c.value * 0x10 + d.value)
  }

  function SimpleEscape(c: CodePoint): Option<CodePoint> {
    if c == 34 || c == 92 || c == 47 then Some(c)
    else if c == 98 then Some(8)
    else if c == 116 then Some(9)
    else if c == 110 then Some(10)
    else if c == 102 then Some(12)
    else if c == 114 then Some(13)
    else None
  }

  function Prepend(c: CodePoint, r: Option<(Text, Text)>): Option<(Text, Text)> {
    if r.None? then None else Some(([c] + r.value.0, r.value.1))
  }

  /** The rest of a string literal after its opening quote. A high surrogate escape joins a low one
      that follows it; an unpaired one is kept, for the profile check to refuse. */
  function ReadString(t: Text): (r: Option<(Text, Text)>)
    ensures r.Some? ==> |r.value.1| < |t|
  {
    if t == [] then None
    else if t[0] == 34 then Some(([], t[1..]))
    else if t[0] != 92 then (if t[0] <= 0x1F then None else Prepend(t[0], ReadString(t[1..])))
    else if |t| < 2 then None
    else if t[1] != 117 then
      var c := SimpleEscape(t[1]);
      if c.None? then None else Prepend(c.value, ReadString(t[2..]))
    else
      var high := ReadUnit(t[2..]);
      if high.None? then None
      else if 0xD800 <= high.value <= 0xDBFF && |t| >= 8 && t[6] == 92 && t[7] == 117 then
        var low := ReadUnit(t[8..]);
        if low.Some? && 0xDC00 <= low.value <= 0xDFFF then
          Prepend(0x10000 + (high.value - 0xD800) * 0x400 + (low.value - 0xDC00), ReadString(t[12..]))
        else Prepend(high.value, ReadString(t[6..]))
      else Prepend(high.value, ReadString(t[6..]))
  }

  function ReadDigits(acc: nat, t: Text): (r: (nat, Text))
    ensures |r.1| <= |t|
    decreases |t|
  {
    if t != [] && IsDigit(t[0]) then ReadDigits(acc * 10 + (t[0] - 48), t[1..]) else (acc, t)
  }

  /** A fraction or exponent makes the number a float, which is refused. */
  predicate FloatFollows(t: Text) {
    t != [] && (t[0] == 46 || t[0] == 101 || t[0] == 69)
  }

  function ReadInt(t: Text): (r: Option<(Json, Text)>)
    ensures r.Some? ==> |r.value.1| < |t| && r.value.0.Int?
  {
    var negative := t != [] && t[0] == 45;
    var u := if negative then t[1..] else t;
    if u == [] || !IsDigit(u[0]) then None
    else
      var (n, rest) := if u[0] == 48 then (0, u[1..]) else ReadDigits(u[0] - 48, u[1..]);
      var magnitude: int := n;
      if FloatFollows(rest) then None else Some((Int(if negative then -magnitude else magnitude), rest))
  }

  // ----- parsing -----

  /** One value at the start of `t`, with what follows it. */
  function ReadValue(t: Text): (r: Option<(Json, Text)>)
    ensures r.Some? ==> |r.value.1| < |t|
    decreases |t|, 1
  {
    if t == [] then None
    else if t[0] == 34 then
      var s := ReadString(t[1..]);
      if s.None? then None else Some((Str(s.value.0), s.value.1))
    else if t[0] == 123 then
      var u := SkipSpace(t[1..]);
      if u != [] && u[0] == 125 then Some((Obj([]), u[1..]))
      else
        var fields := ReadFields(u);
        if fields.None? || !DistinctKeys(fields.value.0) then None
        else Some((Obj(fields.value.0), fields.value.1))
    else if t[0] == 91 then
      var u := SkipSpace(t[1..]);
      if u != [] && u[0] == 93 then Some((Arr([]), u[1..]))
      else
        var items := ReadItems(u);
        if items.None? then None else Some((Arr(items.value.0), items.value.1))
    else if NULL <= t then Some((Null, t[4..]))
    else if TRUE <= t then Some((Bool(true), t[4..]))
    else if FALSE <= t then Some((Bool(false), t[5..]))
    else ReadInt(t)
  }

  function ReadItems(t: Text): (r: Option<(seq<Json>, Text)>)
    ensures r.Some? ==> |r.value.1| < |t|
    decreases |t|, 2
  {
    var first := ReadValue(t);
    if first.None? then None
    else
      var u := SkipSpace(first.value.1);
      if u == [] then None
      else if u[0] == 93 then Some(([first.value.0], u[1..]))
      else if u[0] != 44 then None
      else
        var rest := ReadItems(SkipSpace(u[1..]));
        if rest.None? then None else Some(([first.value.0] + rest.value.0, rest.value.1))
  }

  function ReadFields(t: Text): (r: Option<(seq<(Text, Json)>, Text)>)
    ensures r.Some? ==> |r.value.1| < |t|
    decreases |t|, 2
  {
    if t == [] || t[0] != 34 then None
    else
      var key := ReadString(t[1..]);
      if key.None? then None
      else
        var u := SkipSpace(key.value.1);
        if u == [] || u[0] != 58 then None
        else
          var value := ReadValue(SkipSpace(u[1..]));
          if value.None? then None
          else
            var w := SkipSpace(value.value.1);
            if w == [] then None
            else if w[0] == 125 then Some(([(key.value.0, value.value.0)], w[1..]))
            else if w[0] != 44 then None
            else
              var rest := ReadFields(SkipSpace(w[1..]));
              if rest.None? then None
              else Some(([(key.value.0, value.value.0)] + rest.value.0, rest.value.1))
  }

  /** `strict_json_loads`: one value, nothing after it, inside the profile. */
  function StrictJsonLoads(t: Text): Option<Json> {
    var r := ReadValue(SkipSpace(t));
    if r.None? || SkipSpace(r.value.1) != [] || CanonicalJson(r.value.0).None? then None else Some(r.value.0)
  }

  // ----- reading back what was printed -----

  lemma EscapeReads(c: CodePoint, tail: Text)
    requires !IsSurrogate(c)
    ensures ReadString(EscapeChar(c) + tail) == Prepend(c, ReadString(tail))
  {
    var e := EscapeChar(c);
    var t := e + tail;
    assert t[0] == e[0];
    if |e| == 1 {
      assert t[1..] == tail;
    } else if |e| == 2 {
      assert t[1] == e[1] && t[2..] == tail;
    } else {
      assert t[1] == e[1];
      var u := t[2..];
      assert u[0] == 48 && u[1] == 48 && u[2] == Hex(c / 16) && u[3] == Hex(c % 16);
      assert ReadUnit(u) == Some(c as nat);
      assert t[6..] == tail;
    }
  }

  lemma CloseReads(rest: Text)
    ensures ReadString([34] + rest) == Some(([], rest))
  {
    assert ([34] + rest)[1..] == rest;
  }

  lemma Assoc(a: Text, b: Text, c: Text, d: Text)
    ensures a + b + c + d == a + (b + c + d)
  {
  }

  lemma {:induction false} StringReads(s: Text, rest: Text)
    requires Escape(s).Some?
    ensures ReadString(Escape(s).value + [34] + rest) == Some((s, rest))
  {
    if s == [] {
      CloseReads(rest);
      assert Escape(s).value + [34] + rest == [34] + rest;
    } else {
      var e, body := EscapeChar(s[0]), Escape(s[1..]).value;
      var tail := body + [34] + rest;
      StringReads(s[1..], rest);
      EscapeReads(s[0], tail);
      Assoc(e, body, [34], rest);
      assert [s[0]] + s[1..] == s;
    }
  }

  lemma {:induction false} EscapeDefined(s: Text)
    ensures Escape(s).Some? <==> Scalar(s)
  {
    if s != [] {
      EscapeDefined(s[1..]);
      assert forall c :: c in s <==> c == s[0] || c in s[1..];
    }
  }

  lemma {:induction false} DigitsRead(n: nat, rest: Text)
    ensures ReadDigits(0, Digits(n) + rest) == ReadDigits(n, rest)
    decreases n
  {
    if n < 10 {
      assert ([48 + n] + rest)[1..] == rest;
    } else {
      var d: Text := [48 + n % 10];
      assert Digits(n) + rest == Digits(n / 10) + (d + rest);
      DigitsRead(n / 10, d + rest);
      assert (d + rest)[1..] == rest;
    }
  }

  lemma {:induction false} DigitsShape(n: nat)
    ensures Digits(n) != [] && IsDigit(Digits(n)[0]) && (n > 0 ==> Digits(n)[0] != 48)
    ensures n == 0 ==> Digits(n) == [48]
    decreases n
  {
    if n >= 10 { DigitsShape(n / 10); }
  }

  /** What can follow a value inside a canonical text. */
  predicate Terminated(rest: Text) {
    rest == [] || rest[0] == 44 || rest[0] == 93 || rest[0] == 125
  }

  /** Reading the digits of a magnitude, as `ReadInt` does after the sign. */
  lemma MagnitudeReads(n: nat, rest: Text)
    ensures var u := Digits(n) + rest;
      && u != [] && IsDigit(u[0]) && u[0] == Digits(n)[0]
      && (if n == 0 then u[0] == 48 && u[1..] == rest else u[0] != 48 && ReadDigits(u[0] - 48, u[1..]) == ReadDigits(n, rest))
  {
    DigitsShape(n);
    DigitsRead(n, rest);
    var u := Digits(n) + rest;
    assert u[0] == Digits(n)[0];
    FirstDigit(u);
  }

  lemma IntReads(i: int, rest: Text)
    requires Terminated(rest)
    ensures ReadInt(IntText(i) + rest) == Some((Int(i), rest))
    ensures IntText(i)[0] == 45 || IsDigit(IntText(i)[0])
  {
    var n: nat := if i < 0 then -i else i;
    DigitsShape(n);
    MagnitudeReads(n, rest);
    var t := IntText(i) + rest;
    var u := Digits(n) + rest;
    if i < 0 {
      assert t == [45] + u && t[0] == 45 && t[1..] == u;
    } else {
      assert t == u;
    }
  }

  lemma FirstDigit(u: Text)
    requires u != [] && IsDigit(u[0])
    ensures ReadDigits(0, u) == ReadDigits(u[0] - 48, u[1..])
  {
  }

  /** `text` prints `v`: reading it in any position a value can take yields `v` and leaves the rest. */
  ghost predicate Reads(text: Text, v: Json) {
    && text != [] && !IsSpace(text[0]) && text[0] != 93 && text[0] != 125
    && forall rest :: Terminated(rest) ==> ReadValue(text + rest) == Some((v, rest))
  }

  lemma ReadsNow(text: Text, v: Json, rest: Text)
    requires Reads(text, v) && Terminated(rest)
    ensures SkipSpace(text + rest) == text + rest
    ensures ReadValue(text + rest) == Some((v, rest))
  {
    assert (text + rest)[0] == text[0];
  }

  lemma LiteralsRead()
    ensures Reads(NULL, Null) && Reads(TRUE, Bool(true)) && Reads(FALSE, Bool(false))
  {
    forall rest | Terminated(rest) ensures ReadValue(NULL + rest) == Some((Null, rest)) {
      assert (NULL + rest)[0] == 110 && NULL <= NULL + rest && (NULL + rest)[4..] == rest;
    }
    forall rest | Terminated(rest) ensures ReadValue(TRUE + rest) == Some((Bool(true), rest)) {
      assert (TRUE + rest)[0] == 116 && TRUE <= TRUE + rest && (TRUE + rest)[4..] == rest;
      assert !(NULL <= TRUE + rest) by { assert NULL[0] == 110; }
    }
    forall rest | Terminated(rest) ensures ReadValue(FALSE + rest) == Some((Bool(false), rest)) {
      assert (FALSE + rest)[0] == 102 && FALSE <= FALSE + rest && (FALSE + rest)[5..] == rest;
      assert !(NULL <= FALSE + rest) by { assert NULL[0] == 110; }
      assert !(TRUE <= FALSE + rest) by { assert TRUE[0] == 116; }
    }
  }

  lemma IntegersRead(i: int)
    ensures Reads(IntText(i), Int(i))
  {
    IntReads(i, []);
    forall rest | Terminated(rest) ensures ReadValue(IntText(i) + rest) == Some((Int(i), rest)) {
      IntReads(i, rest);
      var t := IntText(i) + rest;
      assert t[0] == IntText(i)[0];
      assert !(NULL <= t) by { assert NULL[0] == 110; }
      assert !(TRUE <= t) by { assert TRUE[0] == 116; }
      assert !(FALSE <= t) by { assert FALSE[0] == 102; }
    }
  }

  lemma StringsRead(s: Text)
    requires Quote(s).Some?
    ensures Reads(Quote(s).value, Str(s))
  {
    var body := Escape(s).value;
    forall rest | Terminated(rest) ensures ReadValue(Quote(s).value + rest) == Some((Str(s), rest)) {
      StringReads(s, rest);
      assert (Quote(s).value + rest)[1..] == body + [34] + rest;
    }
  }

  lemma LastItem(t: Text, v: Json, rest: Text)
    requires ReadValue(t) == Some((v, [93] + rest))
    ensures ReadItems(t) == Some(([v], rest))
  {
    assert SkipSpace([93] + rest) == [93] + rest && ([93] + rest)[1..] == rest;
  }

  lemma MoreItems(t: Text, v: Json, more: Text, vs: seq<Json>, rest: Text)
    requires ReadValue(t) == Some((v, [44] + more)) && SkipSpace(more) == more
    requires ReadItems(more) == Some((vs, rest))
    ensures ReadItems(t) == Some(([v] + vs, rest))
  {
    assert SkipSpace([44] + more) == [44] + more && ([44] + more)[1..] == more;
  }

  lemma {:induction false} ItemsRead(texts: seq<Text>, values: seq<Json>, rest: Text)
    requires |texts| == |values| > 0 && forall i :: 0 <= i < |texts| ==> Reads(texts[i], values[i])
    ensures ReadItems(Join(texts) + [93] + rest) == Some((values, rest))
  {
    if |texts| == 1 {
      assert Join(texts) + [93] + rest == texts[0] + ([93] + rest);
      ReadsNow(texts[0], values[0], [93] + rest);
      LastItem(texts[0] + ([93] + rest), values[0], rest);
      assert values == [values[0]];
    } else {
      var more := Join(texts[1..]) + [93] + rest;
      JoinMore(texts, 93, rest);
      ReadsNow(texts[0], values[0], [44] + more);
      ItemsRead(texts[1..], values[1..], rest);
      JoinStart(texts[1..], 93, rest);
      MoreItems(texts[0] + ([44] + more), values[0], more, values[1..], rest);
      assert values == [values[0]] + values[1..];
    }
  }

  lemma JoinMore(texts: seq<Text>, close: CodePoint, rest: Text)
    requires |texts| > 1
    ensures Join(texts) + [close] + rest == texts[0] + ([44] + (Join(texts[1..]) + [close] + rest))
  {
  }

  lemma JoinStart(texts: seq<Text>, close: CodePoint, rest: Text)
    requires texts != [] && texts[0] != [] && !IsSpace(texts[0][0])
    ensures (Join(texts) + [close] + rest)[0] == texts[0][0]
    ensures SkipSpace(Join(texts) + [close] + rest) == Join(texts) + [close] + rest
  {
    assert Join(texts)[0] == texts[0][0];
  }

  /** The printed members of an object, in order. */
  ghost predicate Members(texts: seq<Text>, fields: seq<(Text, Json)>) {
    |texts| == |fields| && forall i :: 0 <= i < |texts| ==> Member(texts[i], fields[i])
  }

  ghost predicate Member(text: Text, f: (Text, Json)) {
    exists t :: Quote(f.0).Some? && text == Quote(f.0).value + [58] + t && Reads(t, f.1)
  }

  /** The text starts with the member `f`, and `tail` follows it. */
  ghost predicate MemberAt(t: Text, f: (Text, Json), tail: Text) {
    && t != [] && t[0] == 34 && ReadString(t[1..]).Some? && ReadString(t[1..]).value.0 == f.0
    && var u := SkipSpace(ReadString(t[1..]).value.1);
       u != [] && u[0] == 58 && ReadValue(SkipSpace(u[1..])) == Some((f.1, tail))
  }

  lemma MemberReads(text: Text, f: (Text, Json), tail: Text)
    requires Member(text, f) && Terminated(tail)
    ensures text != [] && text[0] == 34 && MemberAt(text + tail, f, tail)
  {
    var t :| Quote(f.0).Some? && text == Quote(f.0).value + [58] + t && Reads(t, f.1);
    var body, after := Escape(f.0).value, [58] + (t + tail);
    MemberShape(body, t, tail);
    StringReads(f.0, after);
    SkipNothing(58, t + tail);
    ReadsNow(t, f.1, tail);
    MemberFrom(text + tail, f, t + tail, tail);
  }

  lemma MemberShape(body: Text, t: Text, tail: Text)
    ensures [34] + body + [34] + [58] + t + tail == [34] + (body + [34] + ([58] + (t + tail)))
    ensures ([34] + body + [34] + [58] + t + tail)[1..] == body + [34] + ([58] + (t + tail))
  {
  }

  lemma MemberFrom(t: Text, f: (Text, Json), valueText: Text, tail: Text)
    requires t != [] && t[0] == 34 && ReadString(t[1..]) == Some((f.0, [58] + valueText))
    requires SkipSpace([58] + valueText) == [58] + valueText && SkipSpace(valueText) == valueText
    requires ReadValue(valueText) == Some((f.1, tail))
    ensures MemberAt(t, f, tail)
  {
    assert ([58] + valueText)[1..] == valueText;
  }

  lemma SkipNothing(c: CodePoint, t: Text)
    requires !IsSpace(c)
    ensures SkipSpace([c] + t) == [c] + t && ([c] + t)[0] == c && ([c] + t)[1..] == t
  {
  }

  lemma LastField(t: Text, f: (Text, Json), rest: Text)
    requires MemberAt(t, f, [125] + rest)
    ensures ReadFields(t) == Some(([f], rest))
  {
    SkipNothing(125, rest);
  }

  lemma MoreFields(t: Text, f: (Text, Json), more: Text, fs: seq<(Text, Json)>, rest: Text)
    requires MemberAt(t, f, [44] + more) && SkipSpace(more) == more
    requires ReadFields(more) == Some((fs, rest))
    ensures ReadFields(t) == Some(([f] + fs, rest))
  {
    SkipNothing(44, more);
  }

  lemma OnlyField(texts: seq<Text>, fields: seq<(Text, Json)>, rest: Text)
    requires |texts| == |fields| == 1 && Member(texts[0], fields[0])
    ensures ReadFields(Join(texts) + [125] + rest) == Some((fields, rest))
    ensures texts[0] != [] && texts[0][0] == 34
  {
    assert Join(texts) + [125] + rest == texts[0] + ([125] + rest);
    MemberReads(texts[0], fields[0], [125] + rest);
    LastField(texts[0] + ([125] + rest), fields[0], rest);
    assert fields == [fields[0]];
  }

  lemma {:induction false} FieldsRead(texts: seq<Text>, fields: seq<(Text, Json)>, rest: Text)
    requires texts != [] && Members(texts, fields)
    ensures ReadFields(Join(texts) + [125] + rest) == Some((fields, rest))
    ensures texts[0] != [] && texts[0][0] == 34
  {
    assert Member(texts[0], fields[0]);
    if |texts| == 1 {
      OnlyField(texts, fields, rest);
    } else {
      var more := Join(texts[1..]) + [125] + rest;
      JoinMore(texts, 125, rest);
      MemberReads(texts[0], fields[0], [44] + more);
      FieldsRead(texts[1..], fields[1..], rest);
      JoinStart(texts[1..], 125, rest);
      MoreFields(texts[0] + ([44] + more), fields[0], more, fields[1..], rest);
      assert fields == [fields[0]] + fields[1..];
    }
  }

  lemma ArrayOf(u: Text, items: seq<Json>, rest: Text)
    requires SkipSpace(u) == u && u != [] && u[0] != 93 && ReadItems(u) == Some((items, rest))
    ensures ReadValue([91] + u) == Some((Arr(items), rest))
  {
    SkipNothing(91, u);
  }

  lemma ObjectOf(u: Text, fields: seq<(Text, Json)>, rest: Text)
    requires SkipSpace(u) == u && u != [] && u[0] != 125 && ReadFields(u) == Some((fields, rest)) && DistinctKeys(fields)
    ensures ReadValue([123] + u) == Some((Obj(fields), rest))
  {
    SkipNothing(123, u);
  }

  lemma Empties(rest: Text)
    ensures ReadValue([91, 93] + rest) == Some((Arr([]), rest))
    ensures ReadValue([123, 125] + rest) == Some((Obj([]), rest))
  {
    assert ([91, 93] + rest)[1..] == [93] + rest && ([123, 125] + rest)[1..] == [125] + rest;
    SkipNothing(93, rest);
    SkipNothing(125, rest);
  }

  // ----- sorting keys and printing values commute -----

  ghost predicate Aligned(fields: seq<(Text, Json)>, entries: seq<(Text, Text)>) {
    |fields| == |entries|
    && forall i :: 0 <= i < |fields| ==> fields[i].0 == entries[i].0 && Reads(entries[i].1, fields[i].1)
  }

  lemma {:induction false} InsertAligned(f: (Text, Json), e: (Text, Text), fields: seq<(Text, Json)>, entries: seq<(Text, Text)>)
    requires Aligned(fields, entries) && f.0 == e.0 && Reads(e.1, f.1)
    ensures Aligned(Insert(f, fields), Insert(e, entries))
  {
    if fields != [] {
      assert fields[0].0 == entries[0].0;
      if KeyLess(fields[0].0, f.0) {
        InsertAligned(f, e, fields[1..], entries[1..]);
        ConsAligned(fields[0], entries[0], Insert(f, fields[1..]), Insert(e, entries[1..]));
      } else {
        ConsAligned(f, e, fields, entries);
      }
    }
  }

  lemma ConsAligned(f: (Text, Json), e: (Text, Text), fields: seq<(Text, Json)>, entries: seq<(Text, Text)>)
    requires Aligned(fields, entries) && f.0 == e.0 && Reads(e.1, f.1)
    ensures Aligned([f] + fields, [e] + entries)
  {
  }

  lemma {:induction false} SortAligned(fields: seq<(Text, Json)>, entries: seq<(Text, Text)>)
    requires Aligned(fields, entries)
    ensures Aligned(SortByKey(fields), SortByKey(entries))
  {
    if fields != [] {
      SortAligned(fields[1..], entries[1..]);
      InsertAligned(fields[0], entries[0], SortByKey(fields[1..]), SortByKey(entries[1..]));
    }
  }

  lemma {:induction false} AlignedMembers(fields: seq<(Text, Json)>, entries: seq<(Text, Text)>)
    requires Aligned(fields, entries) && FieldTexts(entries).Some?
    ensures Members(FieldTexts(entries).value, fields)
  {
    if entries != [] {
      AlignedMembers(fields[1..], entries[1..]);
      assert Member(FieldTexts(entries).value[0], fields[0]);
    }
  }

  // ----- the round trip -----

  lemma {:induction false} PrintedReads(v: Json)
    requires CanonicalJson(v).Some? && WellFormed(v)
    ensures Reads(CanonicalJson(v).value, Normal(v))
    decreases v, 1
  {
    match v
    case Null => LiteralsRead();
    case Bool(b) => LiteralsRead();
    case Int(i) => IntegersRead(i);
    case Str(s) => StringsRead(s);
    case Arr(items) =>
      PrintedItems(items);
      ArrayReads(CanonicalItems(items).value, NormalItems(items));
    case Obj(fields) =>
      PrintedFields(fields);
      var nf, es := NormalFields(fields), CanonicalEntries(fields).value;
      SortAligned(nf, es);
      AlignedMembers(SortByKey(nf), SortByKey(es));
      NormalKeys(fields);
      SortDistinct(nf);
      ObjectReads(FieldTexts(SortByKey(es)).value, SortByKey(nf));
  }

  lemma ArrayReads(texts: seq<Text>, values: seq<Json>)
    requires |texts| == |values| && forall i :: 0 <= i < |texts| ==> Reads(texts[i], values[i])
    ensures Reads([91] + Join(texts) + [93], Arr(values))
  {
    forall rest | Terminated(rest) ensures ReadValue([91] + Join(texts) + [93] + rest) == Some((Arr(values), rest)) {
      ArrayReadsNow(texts, values, rest);
    }
  }

  lemma ArrayReadsNow(texts: seq<Text>, values: seq<Json>, rest: Text)
    requires |texts| == |values| && forall i :: 0 <= i < |texts| ==> Reads(texts[i], values[i])
    ensures ReadValue([91] + Join(texts) + [93] + rest) == Some((Arr(values), rest))
  {
    var u := Join(texts) + [93] + rest;
    assert [91] + Join(texts) + [93] + rest == [91] + u;
    if texts == [] {
      assert [91] + u == [91, 93] + rest;
      Empties(rest);
    } else {
      ItemsRead(texts, values, rest);
      JoinStart(texts, 93, rest);
      ArrayOf(u, values, rest);
    }
  }

  lemma ObjectReads(texts: seq<Text>, fields: seq<(Text, Json)>)
    requires Members(texts, fields) && DistinctKeys(fields)
    ensures Reads([123] + Join(texts) + [125], Obj(fields))
  {
    forall rest | Terminated(rest) ensures ReadValue([123] + Join(texts) + [125] + rest) == Some((Obj(fields), rest)) {
      ObjectReadsNow(texts, fields, rest);
    }
  }

  lemma ObjectReadsNow(texts: seq<Text>, fields: seq<(Text, Json)>, rest: Text)
    requires Members(texts, fields) && DistinctKeys(fields)
    ensures ReadValue([123] + Join(texts) + [125] + rest) == Some((Obj(fields), rest))
  {
    var u := Join(texts) + [125] + rest;
    assert [123] + Join(texts) + [125] + rest == [123] + u;
    if texts == [] {
      assert [123] + u == [123, 125] + rest;
      Empties(rest);
    } else {
      FieldsRead(texts, fields, rest);
      JoinStart(texts, 125, rest);
      ObjectOf(u, fields, rest);
    }
  }

  lemma {:induction false} PrintedItems(items: seq<Json>)
    requires CanonicalItems(items).Some? && forall x :: x in items ==> WellFormed(x)
    ensures |CanonicalItems(items).value| == |NormalItems(items)| == |items|
    ensures forall i :: 0 <= i < |items| ==> Reads(CanonicalItems(items).value[i], NormalItems(items)[i])
    decreases items, 0
  {
    if items != [] {
      PrintedReads(items[0]);
      PrintedItems(items[1..]);
    }
  }

  lemma {:induction false} PrintedFields(fields: seq<(Text, Json)>)
    requires CanonicalEntries(fields).Some? && forall f :: f in fields ==> WellFormed(f.1)
    ensures Aligned(NormalFields(fields), CanonicalEntries(fields).value)
    decreases fields, 0
  {
    if fields != [] {
      var f := fields[0];
      assert f.1 < f;
      PrintedReads(f.1);
      PrintedFields(fields[1..]);
    }
  }

  lemma {:induction false} NormalKeys(fields: seq<(Text, Json)>)
    ensures |NormalFields(fields)| == |fields|
    ensures forall i :: 0 <= i < |fields| ==> NormalFields(fields)[i].0 == fields[i].0 && NormalFields(fields)[i].1 == Normal(fields[i].1)
  {
    if fields != [] { NormalKeys(fields[1..]); }
  }
}
