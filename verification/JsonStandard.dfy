/** The generator against the grammar of JSON itself: a reader of sections 2 to 7 of RFC 8259, which
    knows nothing of either side of the source, reads every generated text as the value. A string is
    its bytes, so escapes from \u0080 on, which would be several, are not read; nor are numbers with
    a fraction or an exponent. */
module JsonStandard {
  import opened Bytes
  import opened JsonTree
  import opened JsonGenerator
  import opened JsonRoundTrip
  import Parser = JsonParser
  import Strings = JsonStrings

  // ---------------------------------------------------------------- the grammar

  datatype Read = Refused | Read(value: Json, end: nat)

  /** Insignificant white space (section 2). */
  function Ws(t: string, p: nat): (q: nat)
    requires p <= |t|
    ensures p <= q <= |t|
    decreases |t| - p
  {
    if p < |t| && (t[p] == ' ' || t[p] == '\t' || t[p] == '\n' || t[p] == '\r') then Ws(t, p + 1) else p
  }

  /** A text is one value between white space (section 2). */
  function ReadText(t: string, host: Host): Option<Json> {
    var r := ReadValue(t, Ws(t, 0), host);
    if r.Refused? || Ws(t, r.end) < |t| then None else Some(r.value)
  }

  predicate WordAt(t: string, p: nat, word: string) {
    p + |word| <= |t| && t[p..p + |word|] == word
  }

  /** Section 3. */
  function ReadValue(t: string, p: nat, host: Host): (r: Read)
    requires p <= |t|
    ensures r.Read? ==> p < r.end <= |t|
    decreases |t| - p, 0
  {
    if p == |t| then Refused else
    match t[p]
    case '{' =>
      var q := Ws(t, p + 1);
      if q < |t| && t[q] == '}' then Read(Object([]), q + 1) else ReadMembers(t, q, host, [])
    case '[' =>
      var q := Ws(t, p + 1);
      if q < |t| && t[q] == ']' then Read(Array([]), q + 1) else ReadElements(t, q, host, [])
    case '"' =>
      var c := ReadChars(t, p + 1, []);
      if c.NoString? then Refused else Read(Text(c.s), c.end)
    case 'n' => if WordAt(t, p, "null") then Read(Null, p + 4) else Refused
    case 't' => if WordAt(t, p, "true") then Read(Boolean(true), p + 4) else Refused
    case 'f' => if WordAt(t, p, "false") then Read(Boolean(false), p + 5) else Refused
    case _ => ReadNumber(t, p, host)
  }

  /** Section 5: one element, and behind each a comma and another or the bracket. */
  function ReadElements(t: string, p: nat, host: Host, done: seq<Json>): (r: Read)
    requires p <= |t|
    ensures r.Read? ==> p < r.end <= |t| && r.value.Array? && done < r.value.elements
    decreases |t| - p, 1
  {
    var v := ReadValue(t, p, host);
    if v.Refused? then Refused else
    var q := Ws(t, v.end);
    if q == |t| then Refused else
    if t[q] == ']' then Read(Array(done + [v.value]), q + 1) else
    if t[q] == ',' then ReadElements(t, Ws(t, q + 1), host, done + [v.value]) else Refused
  }

  /** Section 4. */
  function ReadMembers(t: string, p: nat, host: Host, done: seq<Member>): (r: Read)
    requires p <= |t|
    ensures r.Read? ==> p < r.end <= |t| && r.value.Object? && done < r.value.members
    decreases |t| - p, 1
  {
    if p == |t| || t[p] != '"' then Refused else
    var key := ReadChars(t, p + 1, []);
    if key.NoString? then Refused else
    var colon := Ws(t, key.end);
    if colon == |t| || t[colon] != ':' then Refused else
    var v := ReadValue(t, Ws(t, colon + 1), host);
    if v.Refused? then Refused else
    var q := Ws(t, v.end);
    if q == |t| then Refused else
    if t[q] == '}' then Read(Object(done + [Member(key.s, v.value)]), q + 1) else
    if t[q] == ',' then ReadMembers(t, Ws(t, q + 1), host, done + [Member(key.s, v.value)]) else Refused
  }

  datatype Span = Span(value: nat, end: nat)

  function ReadDigits(t: string, p: nat, acc: nat): (d: Span)
    requires p <= |t|
    ensures p <= d.end <= |t|
    decreases |t| - p
  {
    if p < |t| && '0' <= t[p] <= '9' then ReadDigits(t, p + 1, 10 * acc + (t[p] as int - '0' as int)) else Span(acc, p)
  }

  /** Section 6: a minus, then a zero or digits that do not begin with one. */
  function ReadNumber(t: string, p: nat, host: Host): (r: Read)
    requires p < |t|
    ensures r.Read? ==> p < r.end <= |t|
  {
    var q := if t[p] == '-' then p + 1 else p;
    if q == |t| || !('0' <= t[q] <= '9') then Refused else
    var d := if t[q] == '0' then Span(0, q + 1) else ReadDigits(t, q + 1, t[q] as int - '0' as int);
    if d.end < |t| && t[d.end] in ".eE" then Refused else
    var n := if t[p] == '-' then 0 - d.value else d.value;
    Read(Number(true, n, host.double(n)), d.end)
  }

  datatype Chars = NoString | Chars(s: string, end: nat)

  /** Section 7, from behind the opening quote on. */
  function ReadChars(t: string, p: nat, done: string): (c: Chars)
    requires p <= |t|
    ensures c.Chars? ==> p < c.end <= |t|
    decreases |t| - p
  {
    if p == |t| || t[p] < ' ' then NoString else
    if t[p] == '"' then Chars(done, p + 1) else
    if t[p] != '\\' then ReadChars(t, p + 1, done + [t[p]]) else
    var e := ReadEscape(t, p + 1);
    if e.NoEscape? then NoString else ReadChars(t, e.end, done + [e.c])
  }

  datatype Escape = NoEscape | Escape(c: char, end: nat)

  /** What stands behind a backslash. */
  function ReadEscape(t: string, p: nat): (e: Escape)
    requires p <= |t|
    ensures e.Escape? ==> p < e.end <= |t|
  {
    if p == |t| then NoEscape else
    match t[p]
    case '"' => Escape('"', p + 1)
    case '\\' => Escape('\\', p + 1)
    case '/' => Escape('/', p + 1)
    case 'b' => Escape(8 as char, p + 1)
    case 'f' => Escape(12 as char, p + 1)
    case 'n' => Escape(10 as char, p + 1)
    case 'r' => Escape(13 as char, p + 1)
    case 't' => Escape(9 as char, p + 1)
    case 'u' =>
      if p + 5 > |t| || t[p + 1] != '0' || t[p + 2] != '0' || HexValue(t[p + 3]) >= 8 || HexValue(t[p + 4]) == 16 then NoEscape
      else Escape((16 * HexValue(t[p + 3]) + HexValue(t[p + 4])) as char, p + 5)
    case _ => NoEscape
  }

  /** 16 for what is no hexadecimal digit. */
  function HexValue(c: char): (n: nat)
    ensures n <= 16
  {
    if '0' <= c <= '9' then c as int - '0' as int else
    if 'a' <= c <= 'f' then c as int - 'a' as int + 10 else
    if 'A' <= c <= 'F' then c as int - 'A' as int + 10 else 16
  }

  // ---------------------------------------------------------------- white space

  /** It is what the parser skips, where there are no comments. */
  lemma {:induction false} WsIsSkipped(t: string, p: nat)
    requires p <= |t|
    ensures Ws(t, p) == Parser.SkipWhite(t, p)
    decreases |t| - p
  {
    if Ws(t, p) != p || Parser.SkipWhite(t, p) != p {
      WsIsSkipped(t, p + 1);
    }
  }

  lemma WsToCharacter(t: string, p: nat, w: string, c: char)
    requires AllWhite(w) && !Parser.IsWhite(c) && c != '/'
    requires p <= |t| && At(t, p, w + [c])
    ensures Ws(t, p) == p + |w| < |t| && t[p + |w|] == c
  {
    WsIsSkipped(t, p);
    BlanksSkipped(t, p, w, c, Parser.Flags(false, false, false, false));
  }

  // ---------------------------------------------------------------- strings

  lemma EscapeCharReads(t: string, p: nat, c: char, done: string)
    requires var e := Strings.EscapeChar(c); p + |e| <= |t| && t[p..p + |e|] == e
    ensures ReadChars(t, p, done) == ReadChars(t, p + |Strings.EscapeChar(c)|, done + [c])
  {
    var e := Strings.EscapeChar(c);
    assert t[p] == t[p..p + |e|][0] && (|e| > 1 ==> t[p + 1] == t[p..p + |e|][1]);
    if Strings.Lossy(c) {
      assert t[p + 2] == e[2] && t[p + 3] == e[3] && t[p + 4] == e[4] && t[p + 5] == e[5];
      HexReads(c as int / 16);
      HexReads(c as int % 16);
      assert 16 * (c as int / 16) + c as int % 16 == c as int;
      assert ReadEscape(t, p + 1) == Escape(c, p + 6);
    } else if Strings.HasShortEscape(c) {
      assert ReadEscape(t, p + 1) == Escape(c, p + 2);
    }
  }

  lemma HexReads(n: nat)
    requires n < 16
    ensures HexValue(Strings.HexDigit(n)) == n
    ensures n == 0 ==> Strings.HexDigit(n) == '0'
  {}

  /** Whatever is in the string, its escaped text reads as the string, lossy characters included. */
  lemma {:induction false} EscapeReads(t: string, p: nat, s: string, done: string)
    requires p <= |t| && At(t, p, Strings.Escape(s) + ['"'])
    ensures ReadChars(t, p, done) == Chars(done + s, p + |Strings.Escape(s)| + 1)
    decreases |s|
  {
    hide Strings.EscapeChar;
    if s == [] {
      assert Strings.Escape(s) + ['"'] == ['"'];
      assert done + s == done;
    } else {
      var e, rest := Strings.EscapeChar(s[0]), Strings.Escape(s[1..]) + ['"'];
      assert Strings.Escape(s) + ['"'] == e + rest;
      AtSplit(t, p, e, rest);
      AtIsSlice(t, p, e);
      EscapeCharReads(t, p, s[0], done);
      hide ReadChars;
      EscapeReads(t, p + |e|, s[1..], done + [s[0]]);
      assert done + [s[0]] + s[1..] == done + s;
    }
  }

  lemma QuotedReads(t: string, p: nat, s: string, layout: Layout)
    requires layout.quote == '"' && p <= |t| && At(t, p, layout.Quoted(s))
    ensures p < |t| && t[p] == '"' && ReadChars(t, p + 1, []) == Chars(s, p + |layout.Quoted(s)|)
  {
    hide Strings.Escape, ReadChars, At;
    AtSplit(t, p, ['"'], Strings.Escape(s) + ['"']);
    AtIsSlice(t, p, ['"']);
    EscapeReads(t, p + 1, s, []);
    assert [] + s == s;
  }

  // ---------------------------------------------------------------- numbers

  lemma {:induction false} DigitsRead(t: string, p: nat, n: nat)
    requires n > 0 && p <= |t| && At(t, p, Digits(n))
    ensures p < |t| && '1' <= t[p] <= '9'
    ensures p + |Digits(n)| <= |t|
    ensures ReadDigits(t, p + 1, t[p] as int - '0' as int) == ReadDigits(t, p + |Digits(n)|, n)
    decreases n
  {
    if n >= 10 {
      var d := ['0' + (n % 10) as char];
      AtSplit(t, p, Digits(n / 10), d);
      DigitsRead(t, p, n / 10);
      AtIsSlice(t, p + |Digits(n / 10)|, d);
      assert 10 * (n / 10) + n % 10 == n;
    }
  }

  /** Digits that begin with no zero, after which nothing of a number follows. */
  lemma PositiveReads(t: string, p: nat, n: nat)
    requires n > 0 && p <= |t| && At(t, p, Digits(n)) && Ends(t, p + |Digits(n)|)
    ensures p < |t| && '1' <= t[p] <= '9'
    ensures ReadDigits(t, p + 1, t[p] as int - '0' as int) == Span(n, p + |Digits(n)|)
    ensures p + |Digits(n)| <= |t| && (p + |Digits(n)| < |t| ==> t[p + |Digits(n)|] !in ".eE")
  {
    DigitsRead(t, p, n);
  }

  lemma NumberReads(t: string, p: nat, n: int, host: Host)
    requires p <= |t| && At(t, p, Decimal(n)) && Ends(t, p + |Decimal(n)|)
    ensures p < |t| && (t[p] == '-' || '0' <= t[p] <= '9')
    ensures ReadNumber(t, p, host) == Read(Number(true, n, host.double(n)), p + |Decimal(n)|)
  {
    hide At, Digits, Ends, ReadDigits;
    if n == 0 {
      ZeroReads(t, p);
    } else if n > 0 {
      PositiveReads(t, p, n);
    } else {
      MinusSplits(t, p, n);
      PositiveReads(t, p + 1, -n);
    }
  }

  lemma MinusSplits(t: string, p: nat, n: int)
    requires n < 0 && p <= |t| && At(t, p, Decimal(n))
    ensures p < |t| && t[p] == '-' && At(t, p + 1, Digits(-n)) && |Decimal(n)| == 1 + |Digits(-n)|
  {
    hide Digits;
    var digits := Digits(-n);
    assert (['-'] + digits)[1..] == digits;
  }

  lemma ZeroReads(t: string, p: nat)
    requires p <= |t| && At(t, p, Decimal(0)) && Ends(t, p + |Decimal(0)|)
    ensures |Decimal(0)| == 1 && p < |t| && t[p] == '0' && (p + 1 < |t| ==> t[p + 1] !in ".eE")
  {
    assert Decimal(0) == ['0'];
  }

  // ---------------------------------------------------------------- values

  /** The generator's own spelling. */
  predicate Own(layout: Layout) {
    layout.quote == '"' && layout.comma == ','
  }

  /** Wherever the text of a value stands, the grammar reads the value there, and ends where the text
      ends. */
  lemma {:induction false} ValueReads(t: string, p: nat, v: Json, layout: Layout, host: Host)
    requires Made(v, host) && Own(layout) && p <= |t| && At(t, p, Generate(v, layout, host))
    requires Ends(t, p + |Generate(v, layout, host)|)
    ensures ReadValue(t, p, host) == Read(v, p + |Generate(v, layout, host)|)
    decreases v, 2
  {
    hide Generate, At, ReadValue;
    match v
    case Number(_, integer, _) => NumberValueReads(t, p, v, layout, host);
    case Array(xs) => ArrayReads(t, p, xs, layout, host);
    case Object(ms) => ObjectReads(t, p, ms, layout, host);
    case Text(text) => TextReads(t, p, text, layout, host);
    case _ => WordReads(t, p, v, layout, host);
  }

  lemma WordReads(t: string, p: nat, v: Json, layout: Layout, host: Host)
    requires v.Null? || v.Boolean?
    requires p <= |t| && At(t, p, Generate(v, layout, host))
    ensures ReadValue(t, p, host) == Read(v, p + |Generate(v, layout, host)|)
  {
    hide ReadNumber, ReadElements, ReadMembers, ReadChars;
    var s := Generate(v, layout, host);
    AtIsSlice(t, p, s);
    assert t[p] == t[p..p + |s|][0];
  }

  lemma NumberValueReads(t: string, p: nat, v: Json, layout: Layout, host: Host)
    requires v.Number? && Made(v, host)
    requires p <= |t| && At(t, p, Generate(v, layout, host)) && Ends(t, p + |Generate(v, layout, host)|)
    ensures ReadValue(t, p, host) == Read(v, p + |Generate(v, layout, host)|)
  {
    hide ReadNumber, Decimal, ReadElements, ReadMembers, ReadChars, At;
    NumberReads(t, p, v.integer, host);
  }

  lemma TextReads(t: string, p: nat, text: string, layout: Layout, host: Host)
    requires Own(layout) && p <= |t| && At(t, p, Generate(Text(text), layout, host))
    ensures ReadValue(t, p, host) == Read(Text(text), p + |Generate(Text(text), layout, host)|)
  {
    hide ReadNumber, ReadElements, ReadMembers, ReadChars, At, Layout.Quoted;
    QuotedReads(t, p, text, layout);
  }

  // ---------------------------------------------------------------- arrays

  lemma ArrayReads(t: string, p: nat, xs: seq<Json>, layout: Layout, host: Host)
    requires Made(Array(xs), host) && Own(layout)
    requires p <= |t| && At(t, p, Generate(Array(xs), layout, host))
    ensures ReadValue(t, p, host) == Read(Array(xs), p + |Generate(Array(xs), layout, host)|)
    decreases xs, 2
  {
    hide Elements, Members, ReadElements, ReadMembers, ReadNumber, ReadChars, Layout.Indent, Layout.Newline, Layout.Quoted, At, Ws, Remaining;
    var inner := layout.Newline() + (Elements(xs, layout.Deeper(), host) + (layout.Dedent() + [']']));
    AtSplit(t, p, ['['], inner);
    AtIsSlice(t, p, ['[']);
    DedentIsWhite(layout);
    RemainingIs(layout.Newline(), xs, layout.Deeper(), layout.Dedent(), [']'], host);
    if xs == [] {
      NoneRemaining(layout.Newline(), layout.Deeper(), layout.Dedent(), [']'], host);
      WsToCharacter(t, p + 1, layout.Newline() + layout.Dedent(), ']');
    } else {
      ElementsRead(t, p + 1, layout.Newline(), xs, layout.Deeper(), layout.Dedent(), host, []);
      assert [] + xs == xs;
    }
  }

  /** From behind the opening bracket or behind a comma, the rest of a generated array. */
  lemma {:induction false} ElementsRead(t: string, p: nat, w: string, xs: seq<Json>, layout: Layout, close: string, host: Host,
      done: seq<Json>)
    requires xs != [] && Own(layout) && AllWhite(w) && AllWhite(close)
    requires forall i :: 0 <= i < |xs| ==> Made(xs[i], host)
    requires p <= |t| && At(t, p, Remaining(w, xs, layout, close, [']'], host))
    ensures Ws(t, p) < |t| && t[Ws(t, p)] != ']'
    ensures ReadElements(t, Ws(t, p), host, done) == Read(Array(done + xs), p + |Remaining(w, xs, layout, close, [']'], host)|)
    decreases xs, 1
  {
    hide At, Generate, Elements, Behind, Ws, ReadValue, Remaining, Made, Parser.SkipWhite, Parser.SkipBlanks, Layout.Indent, Layout.Newline;
    var flags := Parser.Flags(false, false, false, false);
    DedentIsWhite(layout);
    WsIsSkipped(t, p);
    var q := ElementFound(t, p, w, xs, layout, close, [']'], flags, host);
    var e := q + |Generate(xs[0], layout, host)|;
    ValueReads(t, q, xs[0], layout, host);
    if |xs| > 1 {
      CommaPassed(t, e, Elements(xs[1..], layout, host), layout, close, [']']);
      WsStays(t, e);
      RemainingIs(layout.Newline(), xs[1..], layout, close, [']'], host);
      ElementsRead(t, e + 1, layout.Newline(), xs[1..], layout, close, host, done + [xs[0]]);
      assert done + [xs[0]] + xs[1..] == done + xs;
    } else {
      NoElements(xs[1..], layout, host);
      LastBehind(layout, close, [']']);
      WsToCharacter(t, e, close, ']');
      assert xs == [xs[0]];
    }
  }

  lemma WsStays(t: string, p: nat)
    requires p < |t| && t[p] == ','
    ensures Ws(t, p) == p
  {}

  // ---------------------------------------------------------------- objects

  lemma ObjectReads(t: string, p: nat, ms: seq<Member>, layout: Layout, host: Host)
    requires Made(Object(ms), host) && Own(layout)
    requires p <= |t| && At(t, p, Generate(Object(ms), layout, host))
    ensures ReadValue(t, p, host) == Read(Object(ms), p + |Generate(Object(ms), layout, host)|)
    decreases ms, 2
  {
    hide Elements, Members, ReadElements, ReadMembers, ReadNumber, ReadChars, Layout.Indent, Layout.Newline, Layout.Quoted, At, Ws;
    var inner := layout.Newline() + (Members(ms, layout.Deeper(), host) + (layout.Dedent() + ['}']));
    AtSplit(t, p, ['{'], inner);
    AtIsSlice(t, p, ['{']);
    DedentIsWhite(layout);
    if ms == [] {
      NoMembers(layout.Newline(), layout.Deeper(), layout.Dedent(), host);
      WsToCharacter(t, p + 1, layout.Newline() + layout.Dedent(), '}');
    } else {
      MembersRead(t, p + 1, layout.Newline(), ms, layout.Deeper(), layout.Dedent(), host, []);
      assert [] + ms == ms;
    }
  }

  /** One round of the members, up to what stands behind the value. */
  lemma MemberRead(t: string, p: nat, key: string, colon: nat, v: Json, e: nat, host: Host, done: seq<Member>)
    requires p < |t| && t[p] == '"' && colon < |t| && t[colon] == ':' && Ws(t, colon) == colon && e <= |t|
    requires ReadChars(t, p + 1, []) == Chars(key, colon) && ReadValue(t, Ws(t, colon + 1), host) == Read(v, e)
    ensures var q, more := Ws(t, e), done + [Member(key, v)];
      && (q < |t| && t[q] == '}' ==> ReadMembers(t, p, host, done) == Read(Object(more), q + 1))
      && (q < |t| && t[q] == ',' ==> ReadMembers(t, p, host, done) == ReadMembers(t, Ws(t, q + 1), host, more))
  {
    hide Ws, ReadChars, ReadValue;
  }

  /** The first member is read, and what is behind it stands there. */
  lemma {:induction false} FirstMemberRead(t: string, p: nat, w: string, ms: seq<Member>, layout: Layout, close: string, host: Host,
      done: seq<Member>) returns (e: nat)
    requires ms != [] && Own(layout) && AllWhite(w) && AllWhite(close)
    requires Made(ms[0].value, host)
    requires p <= |t| && At(t, p, w + (Members(ms, layout, host) + (close + ['}'])))
    ensures Ws(t, p) < |t| && t[Ws(t, p)] == '"' && e <= |t|
    ensures At(t, e, Behind(|ms| > 1, Members(ms[1..], layout, host), layout, close, ['}']))
    ensures p + |w + (Members(ms, layout, host) + (close + ['}']))|
         == e + |Behind(|ms| > 1, Members(ms[1..], layout, host), layout, close, ['}'])|
    ensures var q, more := Ws(t, e), done + [ms[0]];
      && (q < |t| && t[q] == '}' ==> ReadMembers(t, Ws(t, p), host, done) == Read(Object(more), q + 1))
      && (q < |t| && t[q] == ',' ==> ReadMembers(t, Ws(t, p), host, done) == ReadMembers(t, Ws(t, q + 1), host, more))
    decreases ms, 0
  {
    hide *;
    var flags := Parser.Flags(false, false, false, false);
    WsIsSkipped(t, p);
    OwnIsEither(layout);
    var q, rest := KeyPlaced(t, p, w, ms, layout, close + ['}'], flags, host);
    var k := KeyReads(t, q, ms, layout, close + ['}'], host);
    var v;
    v, e := ValueFound(t, k, ms, layout, close, flags, host);
    WsIsSkipped(t, k);
    ValueReads(t, v, ms[0].value, layout, host);
    MemberRead(t, q, ms[0].key, k - 1, ms[0].value, e, host, done);
  }

  lemma OwnIsEither(layout: Layout)
    requires Own(layout)
    ensures EitherQuote(layout) && EitherComma(layout) && layout.quote == '"' && layout.comma == ','
  {}

  lemma {:induction false} MembersRead(t: string, p: nat, w: string, ms: seq<Member>, layout: Layout, close: string, host: Host,
      done: seq<Member>)
    requires ms != [] && Own(layout) && AllWhite(w) && AllWhite(close)
    requires forall i :: 0 <= i < |ms| ==> Made(ms[i].value, host)
    requires p <= |t| && At(t, p, w + (Members(ms, layout, host) + (close + ['}'])))
    ensures Ws(t, p) < |t| && t[Ws(t, p)] != '}'
    ensures ReadMembers(t, Ws(t, p), host, done) == Read(Object(done + ms), p + |w + (Members(ms, layout, host) + (close + ['}']))|)
    decreases ms, 1
  {
    hide At, Generate, Members, MemberText, Behind, Ws, ReadValue, ReadChars, ReadMembers, Made, Parser.SkipWhite, Parser.SkipBlanks,
      Layout.Indent, Layout.Newline, Layout.Quoted, Space, Valued, AllWhite, Ends;
    var e := FirstMemberRead(t, p, w, ms, layout, close, host, done);
    DedentIsWhite(layout);
    if |ms| > 1 {
      CommaPassed(t, e, Members(ms[1..], layout, host), layout, close, ['}']);
      WsStays(t, e);
      MembersRead(t, e + 1, layout.Newline(), ms[1..], layout, close, host, done + [ms[0]]);
      assert done + [ms[0]] + ms[1..] == done + ms;
    } else {
      NoMembersLeft(ms[1..], layout, host);
      LastBehind(layout, close, ['}']);
      WsToCharacter(t, e, close, '}');
      assert ms == [ms[0]];
    }
  }

  /** The key is read, and its colon stands right behind it. */
  lemma KeyReads(t: string, q: nat, ms: seq<Member>, layout: Layout, tail: string, host: Host) returns (k: nat)
    requires ms != [] && Own(layout)
    requires q <= |t| && At(t, q, layout.Quoted(ms[0].key) + (MemberText(ms, layout, host) + tail))
    ensures q < |t| && t[q] == '"' && 0 < k <= |t|
    ensures ReadChars(t, q + 1, []) == Chars(ms[0].key, k - 1) && Ws(t, k - 1) == k - 1 && t[k - 1] == ':'
    ensures At(t, k, Space(layout) + Valued(ms, layout, tail, host))
    ensures q + |layout.Quoted(ms[0].key) + (MemberText(ms, layout, host) + tail)| == k + |Space(layout) + Valued(ms, layout, tail, host)|
  {
    hide At, ReadChars, Ws, Layout.Quoted, MemberText, Valued;
    var key, more := layout.Quoted(ms[0].key), Space(layout) + Valued(ms, layout, tail, host);
    MemberSplit(ms, layout, tail, host);
    AtSplit(t, q, key, [':'] + more);
    AtIsSlice(t, q, key);
    QuotedReads(t, q, ms[0].key, layout);
    var c := q + |key|;
    AtSplit(t, c, [':'], more);
    assert [] + [':'] == [':'];
    WsToCharacter(t, c, [], ':');
    k := c + 1;
  }

  // ---------------------------------------------------------------- texts

  /** Every text the generator writes, compact or pretty at any indent, is JSON, and means the value,
      whatever strings and keys are in it. */
  lemma GeneratedIsJson(v: Json, layout: Layout, host: Host)
    requires Made(v, host) && layout.quote == '"' && layout.comma == ','
    ensures ReadText(Generate(v, layout, host), host) == Some(v)
  {
    hide Generate, ReadValue, At, Made;
    var t := Generate(v, layout, host);
    AtIsSlice(t, 0, t);
    StartsWell(v, layout, host);
    FirstIsPlaced(t);
    WsToCharacter(t, 0, [], t[0]);
    ValueReads(t, 0, v, layout, host);
    assert Ws(t, |t|) == |t|;
  }

  lemma FirstIsPlaced(t: string)
    requires t != []
    ensures At(t, 0, [] + [t[0]])
  {
    assert [] + [t[0]] == [t[0]];
  }

  /** `mp_json_to_string` by what its result means. */
  method Serialize(v: Json, pretty: bool, host: Host) returns (s: string)
    ensures Made(v, host) ==> ReadText(s, host) == Some(v)
    ensures '\0' !in s
  {
    s := ToString(v, pretty, host);
    GenerateIsCString(v, Layout(pretty, 0, '"', ','), host);
    if Made(v, host) {
      GeneratedIsJson(v, Layout(pretty, 0, '"', ','), host);
    }
  }
}
