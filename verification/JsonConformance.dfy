/** The parser against the grammar of JSON: what it makes of every JSON text whose numbers are 64-bit
    integers, and what its two string loops make of every JSON string. */
module JsonConformance {
  import opened JsonTree
  import opened JsonParser
  import opened JsonRoundTrip
  import opened JsonStandard
  import Strings = JsonStrings

  // ---------------------------------------------------------------- white space

  /** Where no comment begins behind it, white space is all that is skipped. */
  lemma BlanksAreWs(t: string, p: nat, flags: Flags)
    requires p <= |t| && (Ws(t, p) < |t| ==> t[Ws(t, p)] != '/')
    ensures SkipWhite(t, p) == SkipBlanks(t, p, flags) == Ws(t, p)
    ensures SkipWhite(t, Ws(t, p)) == SkipBlanks(t, Ws(t, p), flags) == Ws(t, p)
  {
    WsIsSkipped(t, p);
  }

  lemma {:induction false} WsStops(t: string, p: nat)
    requires p <= |t|
    ensures var q := Ws(t, p); q < |t| ==> t[q] != ' ' && t[q] != '\t' && t[q] != '\n' && t[q] != '\r'
    ensures Ws(t, p) > p ==> t[p] in " \t\n\r"
    decreases |t| - p
  {
    if p < |t| && (t[p] == ' ' || t[p] == '\t' || t[p] == '\n' || t[p] == '\r') {
      WsStops(t, p + 1);
    }
  }

  /** A value begins with none of the characters that the loops look for. */
  lemma ValueBegins(t: string, p: nat, host: Host)
    requires p <= |t| && ReadValue(t, p, host).Read?
    ensures p < |t| && t[p] !in " \t\n\r/],}:" && Ws(t, p) == p
  {
    hide ReadElements, ReadMembers, ReadChars;
  }

  /** No number goes on at the end of the text, at white space, or at a character that follows a value. */
  lemma ValueEnds(t: string, p: nat)
    requires p <= |t| && (Ws(t, p) < |t| ==> t[Ws(t, p)] in ",]}")
    ensures Ends(t, p)
  {
    WsStops(t, p);
  }

  // ---------------------------------------------------------------- numbers

  lemma {:induction false} SameDigits(t: string, p: nat, acc: nat)
    requires p <= |t|
    ensures var d := JsonStandard.ReadDigits(t, p, acc);
      && JsonParser.ReadDigits(t[p..d.end], acc) == d.value
      && forall i :: p <= i < d.end ==> '0' <= t[i] <= '9'
    decreases |t| - p
  {
    if p < |t| && '0' <= t[p] <= '9' {
      var more := 10 * acc + (t[p] as int - '0' as int);
      SameDigits(t, p + 1, more);
      var d := JsonStandard.ReadDigits(t, p + 1, more);
      assert t[p..d.end][1..] == t[p + 1..d.end];
    }
  }

  lemma NumberConforms(t: string, p: nat, host: Host)
    requires p < |t| && JsonStandard.ReadNumber(t, p, host).Read? && Ends(t, JsonStandard.ReadNumber(t, p, host).end)
    ensures var r := JsonStandard.ReadNumber(t, p, host);
      Made(r.value, host) ==> ParseNumber(t, p, host) == Parsed(r.value, r.end)
  {
    hide JsonStandard.ReadDigits, JsonParser.ReadDigits;
    var r := JsonStandard.ReadNumber(t, p, host);
    var q := if t[p] == '-' then p + 1 else p;
    DigitsConform(t, q, r.end);
    NumberEndsThere(t, p, r.end);
    assert t[q] == t[q..r.end][0];
    if q > p {
      assert t[p..r.end] == ['-'] + t[q..r.end];
      assert t[p..r.end][1..] == t[q..r.end];
    }
  }

  /** Digits from `q` on up to `end`, read by both. */
  lemma DigitsConform(t: string, q: nat, end: nat)
    requires q < |t| && '0' <= t[q] <= '9'
    requires end == if t[q] == '0' then q + 1 else JsonStandard.ReadDigits(t, q + 1, t[q] as int - '0' as int).end
    ensures q < end <= |t| && forall i :: q <= i < end ==> '0' <= t[i] <= '9'
    ensures JsonParser.ReadDigits(t[q..end], 0)
         == if t[q] == '0' then 0 else JsonStandard.ReadDigits(t, q + 1, t[q] as int - '0' as int).value
  {
    hide JsonStandard.ReadDigits, JsonParser.ReadDigits;
    SameDigits(t, q + 1, t[q] as int - '0' as int);
    FirstDigit(t, q, end);
    if t[q] == '0' {
      NoDigits(t, end);
    }
  }

  lemma FirstDigit(t: string, q: nat, end: nat)
    requires q < end <= |t| && '0' <= t[q] <= '9'
    ensures JsonParser.ReadDigits(t[q..end], 0) == JsonParser.ReadDigits(t[q + 1..end], t[q] as int - '0' as int)
  {
    assert t[q..end][0] == t[q] && t[q..end][1..] == t[q + 1..end];
  }

  lemma NoDigits(t: string, end: nat)
    requires end <= |t|
    ensures JsonParser.ReadDigits(t[end..end], 0) == 0
  {}

  // ---------------------------------------------------------------- values

  /** What the parser is to make of a value that the grammar reads up to `end`. */
  function Conforming(v: Json, end: nat): Parsed {
    if Quoteless(v) then Parsed(v, end) else Failed
  }

  lemma {:induction false} ValueConforms(t: string, p: nat, flags: Flags, host: Host)
    requires p <= |t| && ReadValue(t, p, host).Read? && Ends(t, ReadValue(t, p, host).end)
    ensures var r := ReadValue(t, p, host);
      Made(r.value, host) ==> ParseValue(t, p, flags, host) == Conforming(r.value, r.end)
    decreases |t| - p, 1
  {
    hide ReadElements, ReadMembers, ReadChars, ParseElements, ParseMembers, JsonStandard.ReadNumber, ParseNumber, SkipBlanks, Ws;
    ValueBegins(t, p, host);
    BlanksAreWs(t, p, flags);
    match t[p]
    case '{' => ObjectConforms(t, p, flags, host);
    case '[' => ArrayConforms(t, p, flags, host);
    case '"' =>
    case 'n' =>
    case 't' =>
    case 'f' =>
    case _ =>
      NumberConforms(t, p, host);
      NumberBegins(t, p, host);
  }

  lemma NumberBegins(t: string, p: nat, host: Host)
    requires p < |t| && JsonStandard.ReadNumber(t, p, host).Read?
    ensures (t[p] == '-' || '0' <= t[p] <= '9') && Quoteless(JsonStandard.ReadNumber(t, p, host).value)
  {
  }

  lemma ArrayConforms(t: string, p: nat, flags: Flags, host: Host)
    requires p < |t| && t[p] == '[' && ReadValue(t, p, host).Read?
    ensures var r := ReadValue(t, p, host);
      Made(r.value, host) ==> ParseElements(t, p + 1, flags, host, []) == Conforming(r.value, r.end)
    decreases |t| - p, 0
  {
    hide ReadElements, ReadMembers, ReadChars, ParseValue, SkipBlanks, Ws;
    var q := Ws(t, p + 1);
    if q < |t| && t[q] == ']' {
      BlanksAreWs(t, p + 1, flags);
    } else {
      ElementsBegin(t, q, host, []);
      BlanksAreWs(t, p + 1, flags);
      ElementsConform(t, q, flags, host, []);
      ElementsFromBlanks(t, p + 1, q, flags, host, []);
    }
  }

  lemma ElementsBegin(t: string, p: nat, host: Host, done: seq<Json>)
    requires p <= |t| && ReadElements(t, p, host, done).Read?
    ensures ReadValue(t, p, host).Read?
    ensures p < |t| && t[p] !in " \t\n\r/],}:" && Ws(t, p) == p
  {
    hide ReadValue;
    ValueBegins(t, p, host);
  }

  predicate AllMade(xs: seq<Json>, host: Host) {
    forall i :: 0 <= i < |xs| ==> Made(xs[i], host)
  }

  predicate AllQuoteless(xs: seq<Json>) {
    forall i :: 0 <= i < |xs| ==> Quoteless(xs[i])
  }

  lemma {:induction false} ElementsConform(t: string, p: nat, flags: Flags, host: Host, done: seq<Json>)
    requires p <= |t| && ReadElements(t, p, host, done).Read?
    ensures var r := ReadElements(t, p, host, done);
      AllMade(r.value.elements[|done|..], host) ==>
        ParseElements(t, p, flags, host, done) == if AllQuoteless(r.value.elements[|done|..]) then Parsed(r.value, r.end) else Failed
    decreases |t| - p, 2
  {
    hide ReadValue, ParseValue, SkipBlanks, SkipWhite, Ws, ParseElements, Made, Quoteless, Ends;
    ElementsBegin(t, p, host, done);
    BlanksAreWs(t, p, flags);
    ElementAdded(t, p, flags, host, done);
    var x := ReadValue(t, p, host);
    var q, r := Ws(t, x.end), ReadElements(t, p, host, done);
    ValueEnds(t, x.end);
    ValueConforms(t, p, flags, host);
    BlanksAreWs(t, x.end, flags);
    var more := done + [x.value];
    FirstOfRest(r.value.elements, done, x.value, host);
    if t[q] == ']' {
      assert SkipComma(t, x.end) == q;
      ArrayEnds(t, q, flags, host, more);
      assert more[|more|..] == [];
    } else {
      var n := Ws(t, q + 1);
      ElementsBegin(t, n, host, more);
      BlanksAreWs(t, q + 1, flags);
      ElementsConform(t, n, flags, host, more);
      ElementsFromBlanks(t, q + 1, n, flags, host, more);
      assert SkipComma(t, x.end) == q + 1;
    }
  }

  lemma ArrayEnds(t: string, q: nat, flags: Flags, host: Host, done: seq<Json>)
    requires q < |t| && t[q] == ']' && SkipBlanks(t, q, flags) == q
    ensures ParseElements(t, q, flags, host, done) == Parsed(Array(done), q + 1)
  {
    hide SkipBlanks;
  }

  lemma FirstOfRest(xs: seq<Json>, done: seq<Json>, x: Json, host: Host)
    requires done + [x] <= xs
    ensures AllMade(xs[|done|..], host) <==> Made(x, host) && AllMade(xs[|done| + 1..], host)
    ensures AllQuoteless(xs[|done|..]) <==> Quoteless(x) && AllQuoteless(xs[|done| + 1..])
  {
    hide Made, Quoteless;
    assert xs[|done|] == (done + [x])[|done|];
    assert xs[|done|..] == [x] + xs[|done| + 1..];
  }

  lemma ObjectConforms(t: string, p: nat, flags: Flags, host: Host)
    requires p < |t| && t[p] == '{' && ReadValue(t, p, host).Read?
    ensures var r := ReadValue(t, p, host); ParseMembers(t, p + 1, flags, host, []) == Conforming(r.value, r.end)
  {
    hide ReadElements, ReadChars, ParseValue, SkipBlanks, Ws, ParseKey;
    var q := Ws(t, p + 1);
    if q < |t| && t[q] == '}' {
      BlanksAreWs(t, p + 1, flags);
    } else {
      MembersBegin(t, q, host, []);
      BlanksAreWs(t, p + 1, flags);
      KeyRefused(t, q, flags, host);
    }
  }

  lemma MembersBegin(t: string, p: nat, host: Host, done: seq<Member>)
    requires p <= |t| && ReadMembers(t, p, host, done).Read?
    ensures p < |t| && t[p] == '"'
  {
    hide ReadValue, ReadChars, Ws;
  }

  lemma KeyRefused(t: string, q: nat, flags: Flags, host: Host)
    requires q < |t| && t[q] == '"'
    ensures ParseKey(t, q, flags, host) == Failed
  {
    hide ParseElements, ParseMembers;
  }

  // ---------------------------------------------------------------- texts

  /** On every JSON text whose numbers are 64-bit integers, whatever its white space and under any flags,
      the parser answers the text's value exactly if no string and no key is in it, and nothing
      otherwise. */
  lemma JsonParses(t: string, flags: Flags, host: Host)
    requires ReadText(t, host).Some? && Made(ReadText(t, host).value, host)
    ensures Parse(t, flags, host) == if Quoteless(ReadText(t, host).value) then ReadText(t, host) else None
  {
    hide ReadValue, ParseValue, SkipBlanks, SkipWhite, Ws, Made, Quoteless, Ends;
    var p := Ws(t, 0);
    var r := ReadValue(t, p, host);
    ValueBegins(t, p, host);
    BlanksAreWs(t, 0, flags);
    ValueEnds(t, r.end);
    ValueConforms(t, p, flags, host);
    BlanksAreWs(t, r.end, flags);
    ValueFromBlanks(t, 0, p, flags, host);
  }

  // ---------------------------------------------------------------- strings

  /** How many unicode escapes stand in a JSON string from `p` on. */
  function Unicodes(t: string, p: nat): nat
    requires p <= |t|
    decreases |t| - p
  {
    if p == |t| || t[p] < ' ' || t[p] == '"' then 0 else
    if t[p] != '\\' then Unicodes(t, p + 1) else
    var e := ReadEscape(t, p + 1);
    if e.NoEscape? then 0 else (if t[p + 1] == 'u' then 1 else 0) + Unicodes(t, e.end)
  }

  lemma EscapeScanned(t: string, p: nat)
    requires p < |t| && t[p] == '\\' && ReadEscape(t, p + 1).Escape?
    ensures Strings.ClosingQuote(t, p, '"') == Strings.ClosingQuote(t, ReadEscape(t, p + 1).end, '"')
  {
    var e := ReadEscape(t, p + 1);
    assert Strings.ClosingQuote(t, p, '"') == Strings.ClosingQuote(t, p + 2, '"');
    if t[p + 1] == 'u' {
      assert Strings.ClosingQuote(t, p + 2, '"') == Strings.ClosingQuote(t, p + 3, '"');
      assert Strings.ClosingQuote(t, p + 3, '"') == Strings.ClosingQuote(t, p + 4, '"');
      assert Strings.ClosingQuote(t, p + 4, '"') == Strings.ClosingQuote(t, p + 5, '"');
      assert Strings.ClosingQuote(t, p + 5, '"') == Strings.ClosingQuote(t, p + 6, '"');
    }
  }

  /** One round of the copying loop at an escape: it is undone, or kept whole if it is a unicode one. */
  lemma EscapeUndone(t: string, p: nat, end: nat)
    requires p < |t| && t[p] == '\\' && ReadEscape(t, p + 1).Escape? && ReadEscape(t, p + 1).end <= end <= |t|
    ensures Strings.Consumed(t[p..end]) == ReadEscape(t, p + 1).end - p
    ensures t[p + 1] != 'u' ==> Strings.Emitted(t[p..end]) == [ReadEscape(t, p + 1).c]
    ensures t[p + 1] == 'u' ==> |Strings.Emitted(t[p..end])| == 6
  {
    var rest := t[p..end];
    assert rest[0] == t[p] && rest[1] == t[p + 1];
  }

  /** One character of a JSON string, on both sides: read up to `e.end`, it is `e.c`. */
  lemma CharConforms(t: string, p: nat, done: string) returns (e: Escape)
    requires p < |t| && t[p] != '"' && ReadChars(t, p, done).Chars?
    ensures e.Escape? && p < e.end <= |t| && ReadChars(t, p, done) == ReadChars(t, e.end, done + [e.c])
    ensures Strings.ClosingQuote(t, p, '"') == Strings.ClosingQuote(t, e.end, '"')
    ensures var unicode := t[p] == '\\' && t[p + 1] == 'u';
      && Unicodes(t, p) == (if unicode then 1 else 0) + Unicodes(t, e.end)
      && forall end :: e.end <= end <= |t| ==> Undone(t, p, e, end, unicode)
  {
    hide ReadEscape, Strings.Emitted, Strings.Consumed, Strings.Unescape;
    if t[p] == '\\' {
      e := ReadEscape(t, p + 1);
      var unicode := t[p + 1] == 'u';
      EscapeScanned(t, p);
      forall end | e.end <= end <= |t|
        ensures Undone(t, p, e, end, unicode)
      {
        EscapeUndone(t, p, end);
        RoundUndone(t, p, e, end, unicode);
      }
    } else {
      e := Escape(t[p], p + 1);
      forall end | e.end <= end <= |t|
        ensures Undone(t, p, e, end, false)
      {
        PlainKept(t[p..end]);
        RoundUndone(t, p, e, end, false);
      }
    }
  }

  /** The copying loop goes from `p` to `e.end`, and emits the character, or six if it is kept. */
  ghost predicate Undone(t: string, p: nat, e: Escape, end: nat, unicode: bool)
    requires e.Escape? && p < e.end <= end <= |t|
  {
    && (!unicode ==> Strings.Unescape(t[p..end]) == [e.c] + Strings.Unescape(t[e.end..end]))
    && (unicode ==> |Strings.Unescape(t[p..end])| == 6 + |Strings.Unescape(t[e.end..end])|)
  }

  lemma RoundUndone(t: string, p: nat, e: Escape, end: nat, unicode: bool)
    requires e.Escape? && p < e.end <= end <= |t| && Strings.Consumed(t[p..end]) == e.end - p
    requires unicode ==> |Strings.Emitted(t[p..end])| == 6
    requires !unicode ==> Strings.Emitted(t[p..end]) == [e.c]
    ensures Undone(t, p, e, end, unicode)
  {
    hide Strings.Emitted, Strings.Consumed;
    assert t[p..end][e.end - p..] == t[e.end..end];
  }

  lemma {:induction false} CharsConform(t: string, p: nat, done: string)
    requires p <= |t| && ReadChars(t, p, done).Chars?
    ensures var c := ReadChars(t, p, done);
      && Strings.ClosingQuote(t, p, '"') == Strings.Found.At(c.end - 1)
      && |Strings.Unescape(t[p..c.end - 1])| == |c.s| - |done| + 5 * Unicodes(t, p)
      && (Unicodes(t, p) == 0 ==> done + Strings.Unescape(t[p..c.end - 1]) == c.s)
    decreases |t| - p
  {
    hide Strings.Unescape, Strings.ClosingQuote, Unicodes, ReadChars;
    StringIsOpen(t, p, done);
    if t[p] == '"' {
      StringIsClosed(t, p, done);
    } else {
      var e := CharConforms(t, p, done);
      CharsConform(t, e.end, done + [e.c]);
      var end := ReadChars(t, p, done).end - 1;
      ClosedBehind(t, e.end, end);
      assert Undone(t, p, e, end, t[p] == '\\' && t[p + 1] == 'u');
      assert done + ([e.c] + Strings.Unescape(t[e.end..end])) == (done + [e.c]) + Strings.Unescape(t[e.end..end]);
    }
  }

  lemma ClosedBehind(t: string, p: nat, end: nat)
    requires p <= |t| && Strings.ClosingQuote(t, p, '"') == Strings.Found.At(end)
    ensures p <= end < |t|
  {}

  lemma StringIsOpen(t: string, p: nat, done: string)
    requires p <= |t| && ReadChars(t, p, done).Chars?
    ensures p < |t|
  {}

  lemma StringIsClosed(t: string, p: nat, done: string)
    requires p < |t| && t[p] == '"'
    ensures ReadChars(t, p, done) == Chars(done, p + 1) && Strings.ClosingQuote(t, p, '"') == Strings.Found.At(p)
    ensures Unicodes(t, p) == 0 && Strings.Unescape(t[p..p]) == [] && done + [] == done
  {}

  lemma PlainKept(body: string)
    requires body != [] && body[0] != '\\'
    ensures Strings.Consumed(body) == 1 && Strings.Emitted(body) == [body[0]]
  {}

  /** In every JSON string the search for the closing quote finds it, and the copying loop gives the
      string exactly if no unicode escape is in it. */
  lemma StringReadIff(t: string, p: nat)
    requires p <= |t| && ReadChars(t, p, []).Chars?
    ensures var c := ReadChars(t, p, []);
      && Strings.ClosingQuote(t, p, '"') == Strings.Found.At(c.end - 1)
      && (Strings.Unescape(t[p..c.end - 1]) == c.s <==> Unicodes(t, p) == 0)
  {
    hide ReadChars, Strings.ClosingQuote, Strings.Unescape, Unicodes;
    CharsConform(t, p, []);
    var u := Strings.Unescape(t[p..ReadChars(t, p, []).end - 1]);
    assert [] + u == u;
  }
}
