/** The JSON parser against the JSON generator: exactly which values survive being written and
    read again, compact or pretty, at any indent and under any parsing flags; and that text spelled
    the same way but with single quotes, where they are allowed, is read back whole. */
module JsonRoundTrip {
  import opened Bytes
  import opened JsonTree
  import opened JsonParser
  import opened JsonGenerator
  import Strings = JsonStrings

  /** Every number inside is what `mp_json_integer` makes of a 64-bit integer. */
  predicate Made(v: Json, host: Host)
    decreases v
  {
    match v
    case Number(isInteger, integer, value) =>
      isInteger && INT64_MIN <= integer <= INT64_MAX && value == host.double(integer)
    case Array(xs) => forall i :: 0 <= i < |xs| ==> Made(xs[i], host)
    case Object(ms) => forall i :: 0 <= i < |ms| ==> Made(ms[i].value, host)
    case _ => true
  }

  /** No string and no key inside. */
  predicate Quoteless(v: Json)
    decreases v
  {
    match v
    case Text(_) => false
    case Object(ms) => ms == []
    case Array(xs) => forall i :: 0 <= i < |xs| ==> Quoteless(xs[i])
    case _ => true
  }

  /** A string that can be read back from between single quotes. */
  predicate Legible(s: string) {
    '\'' !in s && forall i :: 0 <= i < |s| ==> !Strings.Lossy(s[i])
  }

  /** Every string and key inside can. */
  predicate Readable(v: Json)
    decreases v
  {
    match v
    case Text(s) => Legible(s)
    case Object(ms) => forall i :: 0 <= i < |ms| ==> Legible(ms[i].key) && Readable(ms[i].value)
    case Array(xs) => forall i :: 0 <= i < |xs| ==> Readable(xs[i])
    case _ => true
  }

  predicate EitherQuote(layout: Layout) {
    layout.quote == '"' || layout.quote == '\''
  }

  /** A comma between entries, or a blank in its place. */
  predicate EitherComma(layout: Layout) {
    layout.comma == ',' || layout.comma == ' '
  }

  /** The generator's own spelling, or single quotes where they are allowed and do no harm. */
  predicate Spelled(v: Json, layout: Layout, flags: Flags) {
    && EitherComma(layout)
    && (layout.quote == '"' || (layout.quote == '\'' && flags.singleQuotes && Readable(v)))
  }

  predicate Survives(v: Json, layout: Layout) {
    layout.quote == '\'' || Quoteless(v)
  }

  // ---------------------------------------------------------------- numbers

  lemma {:induction false} ReadDigitsBack(n: nat, rest: string)
    ensures ReadDigits(Digits(n) + rest, 0) == ReadDigits(rest, n)
    decreases n
  {
    var d := ['0' + (n % 10) as char];
    assert d + rest == [d[0]] + rest && (d + rest)[1..] == rest;
    if n < 10 {
      assert (Digits(n) + rest)[1..] == rest;
    } else {
      ReadDigitsBack(n / 10, d + rest);
      assert Digits(n) + rest == Digits(n / 10) + (d + rest);
    }
  }

  lemma DecimalRoundTrip(n: int)
    requires INT64_MIN <= n <= INT64_MAX
    ensures Strtoll(Decimal(n)) == n
    ensures LooksInteger(Decimal(n)) && Decimal(n) != []
    ensures forall i :: 0 <= i < |Decimal(n)| ==> InNumber(Decimal(n)[i])
  {
    if n < 0 {
      ReadDigitsBack(-n, []);
      assert Decimal(n)[1..] == Digits(-n) == Digits(-n) + [];
    } else {
      ReadDigitsBack(n, []);
      assert Digits(n) + [] == Digits(n);
    }
  }

  /** A decimal text beyond 64 bits is read as the greatest, or the least, 64-bit integer. */
  lemma DecimalSaturates(n: int)
    ensures Strtoll(Decimal(n)) == if n > 0x7fff_ffff_ffff_ffff then 0x7fff_ffff_ffff_ffff
                                   else if n < -0x8000_0000_0000_0000 then -0x8000_0000_0000_0000 else n
  {
    DigitsReadBack(if n < 0 then -n else n);
    hide Digits, ReadDigits;
    if n < 0 {
      assert Decimal(n)[1..] == Digits(-n);
    }
  }

  lemma DigitsReadBack(n: nat)
    ensures ReadDigits(Digits(n), 0) == n
  {
    ReadDigitsBack(n, []);
    assert Digits(n) + [] == Digits(n);
  }

  /** A number is what stands there of these characters, and an integer if no point and no exponent is
      among them. */
  lemma NumberKindIff(t: string, p: nat, host: Host)
    requires p <= |t|
    ensures var r := ParseNumber(t, p, host);
      && (forall i :: p <= i < r.end ==> t[i] in "0123456789.eE+-")
      && (r.end < |t| ==> t[r.end] !in "0123456789.eE+-")
      && (r.value.isInteger <==> forall i :: p <= i < r.end ==> t[i] !in ".eE")
  {
    var end := NumberEnd(t, p);
    var s := t[p..end];
    assert forall i :: p <= i < end ==> t[i] == s[i - p];
    assert forall i :: 0 <= i < |s| ==> s[i] == t[p + i];
  }

  lemma {:induction false} NumberEndsThere(t: string, p: nat, end: nat)
    requires p <= end <= |t|
    requires forall i :: p <= i < end ==> InNumber(t[i])
    requires end == |t| || !InNumber(t[end])
    ensures NumberEnd(t, p) == end
    decreases end - p
  {
    if p < end {
      NumberEndsThere(t, p + 1, end);
    }
  }

  // ---------------------------------------------------------------- blanks

  predicate AllWhite(w: string) {
    forall i :: 0 <= i < |w| ==> IsWhite(w[i])
  }

  /** White space before something that is neither white nor the start of a comment is skipped. */
  lemma {:induction false} BlanksSkipped(t: string, p: nat, w: string, c: char, flags: Flags)
    requires AllWhite(w) && !IsWhite(c) && c != '/'
    requires p <= |t| && At(t, p, w + [c])
    ensures p + |w| < |t| && t[p + |w|] == c
    ensures SkipWhite(t, p) == p + |w| && SkipBlanks(t, p, flags) == p + |w|
    decreases |w|
  {
    if w == [] {
      assert w + [c] == [c];
    } else {
      assert (w + [c])[1..] == w[1..] + [c];
      BlanksSkipped(t, p + 1, w[1..], c, flags);
    }
  }

  lemma {:induction false} IndentIsWhite(layout: Layout)
    ensures AllWhite(layout.Indent())
    decreases layout.level
  {
    if layout.pretty && layout.level > 0 {
      IndentIsWhite(layout.(level := layout.level - 1));
    }
  }

  lemma DedentIsWhite(layout: Layout)
    ensures AllWhite(layout.Newline()) && AllWhite(layout.Dedent())
  {
    hide Layout.Indent;
    IndentIsWhite(layout);
  }

  lemma {:induction false} BlanksToEnd(t: string, p: nat, w: string, flags: Flags)
    requires AllWhite(w) && p + |w| == |t| && At(t, p, w)
    ensures SkipWhite(t, p) == |t| && SkipBlanks(t, p, flags) == |t|
    decreases |w|
  {
    if w != [] {
      BlanksToEnd(t, p + 1, w[1..], flags);
    }
  }

  // ---------------------------------------------------------------- values

  /** Whatever stands at `p`, a number ends there. */
  predicate Ends(t: string, p: nat) {
    p == |t| || (p < |t| && !InNumber(t[p]))
  }

  /** The first character of a value's text: nothing the parser would skip or close on. */
  lemma StartsWell(v: Json, layout: Layout, host: Host)
    requires Made(v, host) && EitherQuote(layout)
    ensures Generate(v, layout, host) != []
    ensures var c := Generate(v, layout, host)[0]; !IsWhite(c) && c != '/' && c != ']' && c != '}' && c != ','
  {
    hide Elements, Members, Strings.Escape;
    if v.Number? {
      DecimalRoundTrip(v.integer);
    }
  }

  /** A text placed at `p` puts its first character there. */
  lemma HeadPlaced(t: string, p: nat, w: string, s: string)
    requires s != [] && At(t, p, w + s)
    ensures At(t, p, w + [s[0]]) && At(t, p + |w|, s)
  {
    assert w + s == (w + [s[0]]) + s[1..];
    AtSplit(t, p, w + [s[0]], s[1..]);
    AtSplit(t, p, w, s);
  }

  /** The outcome expected of a value whose text ends at `end`. */
  function Outcome(v: Json, layout: Layout, end: nat): Parsed {
    if Survives(v, layout) then Parsed(v, end) else Failed
  }

  /** Wherever the text of a value stands, the parser ends exactly behind it with the value, or
      fails if a double quote is in it. */
  lemma {:induction false} GeneratedParses(t: string, p: nat, v: Json, layout: Layout, flags: Flags, host: Host)
    requires Made(v, host) && Spelled(v, layout, flags) && p <= |t| && At(t, p, Generate(v, layout, host))
    requires Ends(t, p + |Generate(v, layout, host)|)
    ensures ParseValue(t, p, flags, host) == Outcome(v, layout, p + |Generate(v, layout, host)|)
    decreases v, 2
  {
    hide Generate, At, ParseValue;
    match v
    case Number(_, integer, _) => NumberParses(t, p, v, layout, flags, host);
    case Array(xs) => ArrayParses(t, p, xs, layout, flags, host);
    case Object(ms) => ObjectParses(t, p, ms, layout, flags, host);
    case Text(text) => TextParses(t, p, text, layout, flags, host);
    case _ => WordParses(t, p, v, layout, flags, host);
  }

  /** Nothing is skipped before a text that starts well. */
  lemma NothingSkipped(t: string, p: nat, s: string, flags: Flags)
    requires p <= |t| && s != [] && !IsWhite(s[0]) && s[0] != '/' && At(t, p, s)
    ensures SkipBlanks(t, p, flags) == p < |t| && t[p] == s[0]
  {
  }

  lemma WordParses(t: string, p: nat, v: Json, layout: Layout, flags: Flags, host: Host)
    requires v.Null? || v.Boolean?
    requires p <= |t| && At(t, p, Generate(v, layout, host))
    ensures ParseValue(t, p, flags, host) == Parsed(v, p + |Generate(v, layout, host)|)
  {
    var s := Generate(v, layout, host);
    AtIsSlice(t, p, s);
    NothingSkipped(t, p, s, flags);
  }

  lemma NumberRead(t: string, p: nat, n: int, host: Host)
    requires INT64_MIN <= n <= INT64_MAX
    requires p <= |t| && At(t, p, Decimal(n)) && Ends(t, p + |Decimal(n)|)
    ensures ParseNumber(t, p, host) == Parsed(Number(true, n, host.double(n)), p + |Decimal(n)|)
  {
    hide Decimal, InNumber, LooksInteger, Strtoll;
    var s := Decimal(n);
    DecimalRoundTrip(n);
    AtIsSlice(t, p, s);
    forall i | p <= i < p + |s|
      ensures InNumber(t[i])
    {
      assert t[i] == t[p..p + |s|][i - p];
    }
    NumberEndsThere(t, p, p + |s|);
  }

  lemma NumberParses(t: string, p: nat, v: Json, layout: Layout, flags: Flags, host: Host)
    requires v.Number? && Made(v, host)
    requires p <= |t| && At(t, p, Generate(v, layout, host))
    requires Ends(t, p + |Generate(v, layout, host)|)
    ensures ParseValue(t, p, flags, host) == Parsed(v, p + |Generate(v, layout, host)|)
  {
    hide At, ParseNumber, SkipBlanks;
    var s := Decimal(v.integer);
    assert s != [] && (s[0] == '-' || IsDigit(s[0]));
    NothingSkipped(t, p, s, flags);
    NumberRead(t, p, v.integer, host);
  }

  /** At a double quote the parser gives up, whatever its flags. */
  lemma QuoteFails(t: string, p: nat, s: string, flags: Flags, host: Host)
    requires p <= |t| && s != [] && s[0] == '"' && At(t, p, s)
    ensures ParseValue(t, p, flags, host) == Failed
  {
    NothingSkipped(t, p, s, flags);
  }

  lemma TextParses(t: string, p: nat, text: string, layout: Layout, flags: Flags, host: Host)
    requires Spelled(Text(text), layout, flags)
    requires p <= |t| && At(t, p, Generate(Text(text), layout, host))
    ensures ParseValue(t, p, flags, host) == Outcome(Text(text), layout, p + |Generate(Text(text), layout, host)|)
  {
    if layout.quote == '"' {
      QuoteFails(t, p, layout.Quoted(text), flags, host);
    } else {
      QuotedParses(t, p, text, layout, flags, host);
    }
  }

  lemma QuotedParses(t: string, p: nat, text: string, layout: Layout, flags: Flags, host: Host)
    requires layout.quote == '\'' && flags.singleQuotes && Legible(text)
    requires p <= |t| && At(t, p, layout.Quoted(text))
    ensures ParseValue(t, p, flags, host) == Parsed(Text(text), p + |layout.Quoted(text)|)
  {
    hide ParseString, At, SkipBlanks, Strings.Escape;
    NothingSkipped(t, p, layout.Quoted(text), flags);
    SingleQuotedRead(t, p, text, flags);
  }

  // ---------------------------------------------------------------- entries of arrays and objects

  /** What may end the text of an array or object: its bracket, or nothing at the end of the whole
      text. */
  predicate Ending(t: string, p: nat, end: string) {
    end == [']'] || end == ['}'] || (end == [] && p == |t|)
  }

  /** What follows an entry: if there are more, a comma and their text `rest`; then the closing. */
  function Behind(more: bool, rest: string, layout: Layout, close: string, end: string): string {
    Separator(more, layout) + (rest + (close + end))
  }

  lemma LastBehind(layout: Layout, close: string, end: string)
    ensures Behind(false, [], layout, close, end) == close + end
  {
  }

  lemma BehindEnds(t: string, e: nat, more: bool, rest: string, layout: Layout, close: string, end: string)
    requires AllWhite(close) && EitherComma(layout) && (more || rest == [])
    requires e <= |t| && At(t, e, Behind(more, rest, layout, close, end))
    requires Ending(t, e + |Behind(more, rest, layout, close, end)|, end)
    ensures Ends(t, e)
  {
    if !more {
      LastBehind(layout, close, end);
    }
  }

  lemma CommaPassed(t: string, e: nat, rest: string, layout: Layout, close: string, end: string)
    requires e <= |t| && At(t, e, Behind(true, rest, layout, close, end))
    ensures e < |t| && t[e] == layout.comma && At(t, e + 1, layout.Newline() + (rest + (close + end)))
    ensures |Behind(true, rest, layout, close, end)| == 1 + |layout.Newline() + (rest + (close + end))|
  {
    var tail := layout.Newline() + (rest + (close + end));
    assert Behind(true, rest, layout, close, end) == [layout.comma] + tail;
    AtSplit(t, e, [layout.comma], tail);
  }

  /** Behind an entry the comma is passed if there is one; either way the next entry is what is found
      behind the comma's place. */
  lemma CommaOrBlank(t: string, e: nat, q: nat, layout: Layout, flags: Flags)
    requires e < |t| && t[e] == layout.comma && EitherComma(layout)
    requires SkipWhite(t, e + 1) == SkipBlanks(t, e + 1, flags) == q < |t| && t[q] != '/' && t[q] != ','
    ensures SkipBlanks(t, SkipComma(t, e), flags) == SkipBlanks(t, e + 1, flags)
  {
    assert SkipWhite(t, q) == q;
  }

  /** The array loop looks at its place only after the blanks. */
  lemma ElementsFromBlanks(t: string, p: nat, q: nat, flags: Flags, host: Host, done: seq<Json>)
    requires p <= |t| && q <= |t| && SkipBlanks(t, p, flags) == SkipBlanks(t, q, flags)
    ensures ParseElements(t, p, flags, host, done) == ParseElements(t, q, flags, host, done)
  {
    hide SkipBlanks, ParseValue;
  }

  lemma MembersFromBlanks(t: string, p: nat, q: nat, flags: Flags, host: Host, done: seq<Member>)
    requires p <= |t| && q <= |t| && SkipBlanks(t, p, flags) == SkipBlanks(t, q, flags)
    ensures ParseMembers(t, p, flags, host, done) == ParseMembers(t, q, flags, host, done)
  {
    hide SkipBlanks, ParseValue, ParseKey;
  }

  lemma NoCommaSkipped(t: string, e: nat, layout: Layout, close: string, end: string, flags: Flags)
    requires AllWhite(close) && e <= |t| && At(t, e, Behind(false, [], layout, close, end))
    requires Ending(t, e + |Behind(false, [], layout, close, end)|, end)
    ensures SkipComma(t, e) == e + |close| <= |t| && At(t, e + |close|, [] + end)
    ensures |Behind(false, [], layout, close, end)| == |close| + |end|
  {
    hide At, SkipBlanks, SkipWhite, SkipComma, Behind;
    LastBehind(layout, close, end);
    CloseSkipped(t, e, close, end, flags);
    AtSplit(t, e, close, end);
    assert [] + end == end;
  }

  lemma CloseSkipped(t: string, e: nat, close: string, end: string, flags: Flags)
    requires AllWhite(close) && e <= |t| && At(t, e, close + end) && Ending(t, e + |close + end|, end)
    ensures SkipComma(t, e) == e + |close| <= |t|
  {
    hide At, SkipBlanks, SkipWhite;
    if end == [] {
      assert close + end == close;
      BlanksToEnd(t, e, close, flags);
    } else {
      assert end == [end[0]];
      BlanksSkipped(t, e, close, end[0], flags);
    }
  }

  // ---------------------------------------------------------------- arrays

  predicate AllSurvive(xs: seq<Json>, layout: Layout) {
    forall i :: 0 <= i < |xs| ==> Survives(xs[i], layout)
  }

  /** The text of an array from its `w` white space on, with `close` and `end` behind its elements. */
  function Remaining(w: string, xs: seq<Json>, layout: Layout, close: string, end: string, host: Host): string {
    w + (Elements(xs, layout, host) + (close + end))
  }

  lemma ArrayParses(t: string, p: nat, xs: seq<Json>, layout: Layout, flags: Flags, host: Host)
    requires Made(Array(xs), host) && Spelled(Array(xs), layout, flags)
    requires p <= |t| && At(t, p, Generate(Array(xs), layout, host))
    ensures ParseValue(t, p, flags, host) == Outcome(Array(xs), layout, p + |Generate(Array(xs), layout, host)|)
    decreases xs, 2
  {
    hide Elements, ParseElements, At, SkipBlanks, Layout.Indent, Layout.Newline;
    var inner := layout.Newline() + (Elements(xs, layout.Deeper(), host) + (layout.Dedent() + [']']));
    AtSplit(t, p, ['['], inner);
    NothingSkipped(t, p, ['['], flags);
    DedentIsWhite(layout);
    ElementsParse(t, p + 1, layout.Newline(), xs, layout.Deeper(), layout.Dedent(), [']'], flags, host, []);
    assert [] + xs == xs;
    AllSurviveIff(xs, layout);
  }

  lemma AllSurviveIff(xs: seq<Json>, layout: Layout)
    ensures AllSurvive(xs, layout.Deeper()) <==> Survives(Array(xs), layout)
  {
  }

  /** The blanks before a first element are skipped, and its text stands alone behind them. */
  lemma ElementFound(t: string, p: nat, w: string, xs: seq<Json>, layout: Layout, close: string, end: string, flags: Flags, host: Host)
      returns (q: nat)
    requires xs != [] && Made(xs[0], host) && EitherQuote(layout) && EitherComma(layout) && AllWhite(w) && AllWhite(close)
    requires p <= |t| && At(t, p, Remaining(w, xs, layout, close, end, host))
    requires Ending(t, p + |Remaining(w, xs, layout, close, end, host)|, end)
    ensures q == SkipWhite(t, p) == SkipBlanks(t, p, flags) < |t| && t[q] != ']' && t[q] != '/' && t[q] != ','
    ensures At(t, q, Generate(xs[0], layout, host)) && q + |Generate(xs[0], layout, host)| <= |t|
    ensures At(t, q + |Generate(xs[0], layout, host)|, Behind(|xs| > 1, Elements(xs[1..], layout, host), layout, close, end))
    ensures Ends(t, q + |Generate(xs[0], layout, host)|)
    ensures p + |Remaining(w, xs, layout, close, end, host)|
         == q + |Generate(xs[0], layout, host)| + |Behind(|xs| > 1, Elements(xs[1..], layout, host), layout, close, end)|
  {
    hide Generate, Layout.Indent, At, SkipBlanks, SkipWhite, Remaining, Behind, Elements, InNumber, IsWhite, EitherQuote, EitherComma, Made;
    var g, rest, blank := Generate(xs[0], layout, host), Elements(xs[1..], layout, host), w + layout.Indent();
    var behind := Behind(|xs| > 1, rest, layout, close, end);
    RemainingSplits(w, xs, layout, close, end, host);
    IndentIsWhite(layout);
    StartsWell(xs[0], layout, host);
    HeadPlaced(t, p, blank, g + behind);
    BlanksSkipped(t, p, blank, g[0], flags);
    q := p + |blank|;
    AtSplit(t, q, g, behind);
    AtIsSlice(t, q, g);
    NoElements(xs[1..], layout, host);
    BehindEnds(t, q + |g|, |xs| > 1, rest, layout, close, end);
  }

  lemma NoElements(xs: seq<Json>, layout: Layout, host: Host)
    ensures xs == [] ==> Elements(xs, layout, host) == []
  {
  }

  lemma RemainingSplits(w: string, xs: seq<Json>, layout: Layout, close: string, end: string, host: Host)
    requires xs != []
    ensures Remaining(w, xs, layout, close, end, host)
         == (w + layout.Indent())
          + (Generate(xs[0], layout, host) + Behind(|xs| > 1, Elements(xs[1..], layout, host), layout, close, end))
  {
    hide Generate, Layout.Indent;
    var g, rest := Generate(xs[0], layout, host), Elements(xs[1..], layout, host);
    var separator, bracket := Separator(|xs| > 1, layout), close + end;
    Regroup(separator, rest, bracket);
    Regroup(g, separator + rest, bracket);
    Regroup(layout.Indent(), g + (separator + rest), bracket);
    Regroup(w, layout.Indent(), g + (separator + (rest + bracket)));
  }

  /** From behind the opening bracket or behind a comma, the rest of a generated array. */
  lemma {:induction false} ElementsParse(t: string, p: nat, w: string, xs: seq<Json>, layout: Layout, close: string, end: string,
      flags: Flags, host: Host, done: seq<Json>)
    requires EitherQuote(layout) && EitherComma(layout)
    requires forall i :: 0 <= i < |xs| ==> Made(xs[i], host) && Spelled(xs[i], layout, flags)
    requires AllWhite(w) && AllWhite(close) && end != ['}']
    requires p <= |t| && At(t, p, Remaining(w, xs, layout, close, end, host))
    requires Ending(t, p + |Remaining(w, xs, layout, close, end, host)|, end)
    ensures ParseElements(t, p, flags, host, done)
         == if AllSurvive(xs, layout) then Parsed(Array(done + xs), p + |Remaining(w, xs, layout, close, end, host)|) else Failed
    decreases xs, 1
  {
    hide At, Generate, Elements, Behind, SkipBlanks, SkipComma, SkipWhite, ParseElements, ParseValue, Remaining, Made, Spelled, Survives,
      Layout.Indent, Layout.Newline, IsWhite;
    DedentIsWhite(layout);
    if xs == [] {
      NoneRemaining(w, layout, close, end, host);
      ArrayCloses(t, p, w + close, end, flags, host, done);
      assert done + xs == done;
    } else {
      assert Spelled(xs[0], layout, flags);
      var q := ElementFound(t, p, w, xs, layout, close, end, flags, host);
      var e := q + |Generate(xs[0], layout, host)|;
      GeneratedParses(t, q, xs[0], layout, flags, host);
      ElementAdded(t, p, flags, host, done);
      if Survives(xs[0], layout) {
        assert done + [xs[0]] + xs[1..] == done + xs;
        if |xs| > 1 {
          CommaPassed(t, e, Elements(xs[1..], layout, host), layout, close, end);
          RemainingIs(layout.Newline(), xs[1..], layout, close, end, host);
          var n := ElementFound(t, e + 1, layout.Newline(), xs[1..], layout, close, end, flags, host);
          CommaOrBlank(t, e, n, layout, flags);
          ElementsFromBlanks(t, SkipComma(t, e), e + 1, flags, host, done + [xs[0]]);
          ElementsParse(t, e + 1, layout.Newline(), xs[1..], layout, close, end, flags, host, done + [xs[0]]);
        } else {
          NoElements(xs[1..], layout, host);
          NoCommaSkipped(t, e, layout, close, end, flags);
          ArrayCloses(t, e + |close|, [], end, flags, host, done + [xs[0]]);
        }
      }
    }
  }

  lemma RemainingIs(w: string, xs: seq<Json>, layout: Layout, close: string, end: string, host: Host)
    ensures Remaining(w, xs, layout, close, end, host) == w + (Elements(xs, layout, host) + (close + end))
  {
  }

  lemma NoneRemaining(w: string, layout: Layout, close: string, end: string, host: Host)
    ensures Remaining(w, [], layout, close, end, host) == (w + close) + end
  {
  }

  lemma ArrayCloses(t: string, p: nat, w: string, end: string, flags: Flags, host: Host, done: seq<Json>)
    requires AllWhite(w) && end != ['}'] && p <= |t| && At(t, p, w + end) && Ending(t, p + |w + end|, end)
    ensures ParseElements(t, p, flags, host, done) == Parsed(Array(done), p + |w| + |end|)
  {
    hide At, SkipBlanks, SkipWhite, ParseValue, SkipComma;
    if end == [] {
      assert w + end == w;
      BlanksToEnd(t, p, w, flags);
    } else {
      BlanksSkipped(t, p, w, ']', flags);
    }
  }

  // ---------------------------------------------------------------- objects

  lemma ObjectParses(t: string, p: nat, ms: seq<Member>, layout: Layout, flags: Flags, host: Host)
    requires Made(Object(ms), host) && Spelled(Object(ms), layout, flags)
    requires p <= |t| && At(t, p, Generate(Object(ms), layout, host))
    ensures ParseValue(t, p, flags, host) == Outcome(Object(ms), layout, p + |Generate(Object(ms), layout, host)|)
    decreases ms, 4
  {
    hide Members, ParseMembers, At, SkipBlanks, Layout.Indent, Layout.Newline;
    var inner := layout.Newline() + (Members(ms, layout.Deeper(), host) + (layout.Dedent() + ['}']));
    AtSplit(t, p, ['{'], inner);
    NothingSkipped(t, p, ['{'], flags);
    DedentIsWhite(layout);
    if ms == [] || layout.quote == '\'' {
      MembersParse(t, p + 1, layout.Newline(), ms, layout.Deeper(), layout.Dedent(), flags, host, []);
      assert [] + ms == ms;
    } else {
      KeyFails(t, p + 1, ms, layout, flags, host);
    }
  }

  /** A first key begins with a double quote. */
  lemma KeyFails(t: string, p: nat, ms: seq<Member>, layout: Layout, flags: Flags, host: Host)
    requires ms != [] && layout.quote == '"'
    requires p <= |t| && At(t, p, layout.Newline() + (Members(ms, layout.Deeper(), host) + (layout.Dedent() + ['}'])))
    ensures ParseMembers(t, p, flags, host, []) == Failed
  {
    hide Members, MemberText, Layout.Indent, At, SkipBlanks, ParseValue, Strings.Escape;
    var inner, w, tail := layout.Deeper(), layout.Newline(), layout.Dedent() + ['}'];
    var q, rest := KeyPlaced(t, p, w, ms, inner, tail, flags, host);
    QuoteFails(t, q, inner.Quoted(ms[0].key) + rest, flags, host);
  }

  /** A member's text behind its key. */
  function MemberText(ms: seq<Member>, layout: Layout, host: Host): string
    requires ms != []
  {
    layout.Colon() + (Generate(ms[0].value, layout, host) + (Separator(|ms| > 1, layout) + Members(ms[1..], layout, host)))
  }

  lemma MembersSplit(ms: seq<Member>, layout: Layout, host: Host)
    requires ms != []
    ensures Members(ms, layout, host) == layout.Indent() + (layout.Quoted(ms[0].key) + MemberText(ms, layout, host))
  {
  }

  /** The blanks before a first member are skipped, and its key stands behind them. */
  lemma KeyPlaced(t: string, p: nat, w: string, ms: seq<Member>, layout: Layout, tail: string, flags: Flags, host: Host)
      returns (q: nat, rest: string)
    requires ms != [] && AllWhite(w) && (layout.quote == '"' || layout.quote == '\'')
    requires p <= |t| && At(t, p, w + (Members(ms, layout, host) + tail))
    ensures rest == MemberText(ms, layout, host) + tail
    ensures q == SkipWhite(t, p) == SkipBlanks(t, p, flags) < |t| && t[q] == layout.quote
    ensures At(t, q, layout.Quoted(ms[0].key) + rest)
    ensures p + |w + (Members(ms, layout, host) + tail)| == q + |layout.Quoted(ms[0].key) + rest|
  {
    hide Members, MemberText, Layout.Indent, At, SkipBlanks, SkipWhite, Strings.Escape;
    var blank, key := w + layout.Indent(), layout.Quoted(ms[0].key);
    rest := MemberText(ms, layout, host) + tail;
    q := p + |blank|;
    MembersSplit(ms, layout, host);
    Regroup(key, MemberText(ms, layout, host), tail);
    Regroup(layout.Indent(), key + MemberText(ms, layout, host), tail);
    Regroup(w, layout.Indent(), key + rest);
    IndentIsWhite(layout);
    HeadPlaced(t, p, blank, key + rest);
    BlanksSkipped(t, p, blank, layout.quote, flags);
  }

  /** From behind the opening brace or behind a comma, the rest of an object spelled with single
      quotes. */
  lemma {:induction false} MembersParse(t: string, p: nat, w: string, ms: seq<Member>, layout: Layout, close: string,
      flags: Flags, host: Host, done: seq<Member>)
    requires EitherComma(layout) && (ms != [] ==> layout.quote == '\'' && flags.singleQuotes)
    requires forall i :: 0 <= i < |ms| ==> Made(ms[i].value, host) && Legible(ms[i].key) && Readable(ms[i].value)
    requires AllWhite(w) && AllWhite(close)
    requires p <= |t| && At(t, p, w + (Members(ms, layout, host) + (close + ['}'])))
    ensures ParseMembers(t, p, flags, host, done)
         == Parsed(Object(done + ms), p + |w + (Members(ms, layout, host) + (close + ['}']))|)
    decreases ms, 3
  {
    hide At, Generate, Members, MemberText, Behind, SkipBlanks, SkipComma, SkipWhite, ParseMembers, ParseValue, ParseKey,
      Made, Readable, Legible, Layout.Indent, Layout.Newline, Layout.Quoted, IsWhite, Space, Valued;
    DedentIsWhite(layout);
    if ms == [] {
      NoMembers(w, layout, close, host);
      ObjectCloses(t, p, w + close, flags, host, done);
      assert done + ms == done;
    } else {
      var q, rest := KeyPlaced(t, p, w, ms, layout, close + ['}'], flags, host);
      var k := KeyParses(t, q, ms, layout, close + ['}'], flags, host);
      var v, e := ValueFound(t, k, ms, layout, close, flags, host);
      GeneratedParses(t, v, ms[0].value, layout, flags, host);
      MemberAdded(t, p, flags, host, done);
      assert done + [ms[0]] + ms[1..] == done + ms;
      assert ms[0] == Member(ms[0].key, ms[0].value);
      if |ms| > 1 {
        CommaPassed(t, e, Members(ms[1..], layout, host), layout, close, ['}']);
        var n, more := KeyPlaced(t, e + 1, layout.Newline(), ms[1..], layout, close + ['}'], flags, host);
        CommaOrBlank(t, e, n, layout, flags);
        MembersFromBlanks(t, SkipComma(t, e), e + 1, flags, host, done + [ms[0]]);
        MembersParse(t, e + 1, layout.Newline(), ms[1..], layout, close, flags, host, done + [ms[0]]);
      } else {
        NoMembersLeft(ms[1..], layout, host);
        NoCommaSkipped(t, e, layout, close, ['}'], flags);
        ObjectCloses(t, e + |close|, [], flags, host, done + [ms[0]]);
      }
    }
  }

  /** One round of the object loop that ends neither the object nor in failure. */
  lemma MemberAdded(t: string, p: nat, flags: Flags, host: Host, done: seq<Member>)
    requires p <= |t|
    ensures var q := SkipBlanks(t, p, flags); q < |t| && t[q] != '}' ==>
      var key := ParseKey(t, q, flags, host);
      if key.Failed? then ParseMembers(t, p, flags, host, done) == Failed else
      var value := ParseValue(t, key.end, flags, host);
      ParseMembers(t, p, flags, host, done) == if value.Failed? then Failed else
        ParseMembers(t, SkipComma(t, value.end), flags, host, done + [Member(key.value.text, value.value)])
  {
    hide SkipBlanks, SkipComma, ParseKey, ParseValue;
  }

  /** The key and its colon are read; what is left of the colon's own text is white. */
  lemma KeyParses(t: string, q: nat, ms: seq<Member>, layout: Layout, tail: string, flags: Flags, host: Host) returns (k: nat)
    requires ms != [] && layout.quote == '\'' && flags.singleQuotes && Legible(ms[0].key)
    requires q <= |t| && At(t, q, layout.Quoted(ms[0].key) + (MemberText(ms, layout, host) + tail))
    ensures k <= |t| && ParseKey(t, q, flags, host) == Parsed(Text(ms[0].key), k)
    ensures At(t, k, Space(layout) + Valued(ms, layout, tail, host))
    ensures q + |layout.Quoted(ms[0].key) + (MemberText(ms, layout, host) + tail)| == k + |Space(layout) + Valued(ms, layout, tail, host)|
  {
    hide At, ParseValue, SkipWhite, SkipBlanks, Layout.Quoted, MemberText, Valued;
    var key, more := layout.Quoted(ms[0].key), Space(layout) + Valued(ms, layout, tail, host);
    MemberSplit(ms, layout, tail, host);
    AtSplit(t, q, key, [':'] + more);
    AtIsSlice(t, q, key);
    QuotedParses(t, q, ms[0].key, layout, flags, host);
    var c := q + |key|;
    AtSplit(t, c, [':'], more);
    assert [] + [':'] == [':'];
    BlanksSkipped(t, c, [], ':', flags);
    k := c + 1;
  }

  function Space(layout: Layout): string {
    if layout.pretty then " " else ""
  }

  /** A member's value and everything behind it. */
  function Valued(ms: seq<Member>, layout: Layout, tail: string, host: Host): string
    requires ms != []
  {
    Generate(ms[0].value, layout, host) + (Separator(|ms| > 1, layout) + (Members(ms[1..], layout, host) + tail))
  }

  lemma MemberSplit(ms: seq<Member>, layout: Layout, tail: string, host: Host)
    requires ms != []
    ensures MemberText(ms, layout, host) + tail == [':'] + (Space(layout) + Valued(ms, layout, tail, host))
  {
    hide Generate, Members, Layout.Newline, Separator;
    var g, separator, rest := Generate(ms[0].value, layout, host), Separator(|ms| > 1, layout), Members(ms[1..], layout, host);
    assert layout.Colon() == [':'] + Space(layout);
    Regroup(separator, rest, tail);
    Regroup(g, separator + rest, tail);
    Regroup(layout.Colon(), g + (separator + rest), tail);
    Regroup([':'], Space(layout), g + (separator + (rest + tail)));
  }

  /** Behind the colon, white space is skipped and the value's text stands alone. */
  lemma ValueFound(t: string, k: nat, ms: seq<Member>, layout: Layout, close: string, flags: Flags, host: Host)
      returns (q: nat, e: nat)
    requires ms != [] && EitherQuote(layout) && EitherComma(layout) && Made(ms[0].value, host) && AllWhite(close)
    requires k <= |t| && At(t, k, Space(layout) + Valued(ms, layout, close + ['}'], host))
    ensures q == SkipWhite(t, k) <= |t| && At(t, q, Generate(ms[0].value, layout, host)) && Ends(t, e)
    ensures e == q + |Generate(ms[0].value, layout, host)| <= |t|
    ensures ParseValue(t, k, flags, host) == ParseValue(t, q, flags, host)
    ensures At(t, e, Behind(|ms| > 1, Members(ms[1..], layout, host), layout, close, ['}']))
    ensures k + |Space(layout) + Valued(ms, layout, close + ['}'], host)|
         == e + |Behind(|ms| > 1, Members(ms[1..], layout, host), layout, close, ['}'])|
  {
    hide At, Generate, Members, ParseValue, SkipBlanks, SkipWhite, Made, Layout.Indent, Layout.Newline, IsWhite, InNumber, Valued, Behind;
    var v, rest := ms[0].value, Members(ms[1..], layout, host);
    var g, behind := Generate(v, layout, host), Behind(|ms| > 1, rest, layout, close, ['}']);
    ValuedIs(ms, layout, close, host);
    StartsWell(v, layout, host);
    SpaceIsWhite(layout);
    q := k + |Space(layout)|;
    HeadPlaced(t, k, Space(layout), g + behind);
    AtSplit(t, q, g, behind);
    AtIsSlice(t, q, g);
    e := q + |g|;
    NoMembersLeft(ms[1..], layout, host);
    BehindEnds(t, e, |ms| > 1, rest, layout, close, ['}']);
    BlanksDoNotMatter(t, k, Space(layout), g[0], flags, host);
  }

  lemma ValuedIs(ms: seq<Member>, layout: Layout, close: string, host: Host)
    requires ms != []
    ensures Valued(ms, layout, close + ['}'], host)
         == Generate(ms[0].value, layout, host) + Behind(|ms| > 1, Members(ms[1..], layout, host), layout, close, ['}'])
  {
  }

  lemma SpaceIsWhite(layout: Layout)
    ensures AllWhite(Space(layout))
  {
  }

  /** A value is the same with white space before it. */
  lemma BlanksDoNotMatter(t: string, k: nat, w: string, c: char, flags: Flags, host: Host)
    requires AllWhite(w) && !IsWhite(c) && c != '/'
    requires k <= |t| && At(t, k, w + [c])
    ensures SkipWhite(t, k) == k + |w| <= |t| && ParseValue(t, k, flags, host) == ParseValue(t, k + |w|, flags, host)
  {
    hide ParseMembers, ParseElements, ParseNumber, ParseString;
    BlanksSkipped(t, k, w, c, flags);
    assert SkipBlanks(t, k + |w|, flags) == k + |w|;
  }

  lemma NoMembersLeft(ms: seq<Member>, layout: Layout, host: Host)
    ensures ms == [] ==> Members(ms, layout, host) == []
  {
  }

  lemma NoMembers(w: string, layout: Layout, close: string, host: Host)
    ensures w + (Members([], layout, host) + (close + ['}'])) == (w + close) + ['}']
  {
  }

  lemma ObjectCloses(t: string, p: nat, w: string, flags: Flags, host: Host, done: seq<Member>)
    requires AllWhite(w) && p <= |t| && At(t, p, w + ['}'])
    ensures ParseMembers(t, p, flags, host, done) == Parsed(Object(done), p + |w| + 1)
  {
    hide At, SkipBlanks, SkipWhite, ParseKey, ParseValue, SkipComma;
    BlanksSkipped(t, p, w, '}', flags);
  }

  // ---------------------------------------------------------------- illegible strings

  /** The parser did not come up with this value. */
  predicate Misses(r: Parsed, v: Json) {
    r.Failed? || r.value != v
  }

  /** What has been read of an array stays read. */
  lemma {:induction false} ElementsStay(t: string, p: nat, flags: Flags, host: Host, done: seq<Json>)
    requires p <= |t|
    ensures var r := ParseElements(t, p, flags, host, done); r.Parsed? ==> done <= r.value.elements
    decreases |t| - p
  {
    hide SkipBlanks, SkipComma, ParseValue;
    var q := SkipBlanks(t, p, flags);
    if q < |t| && t[q] != ']' {
      var element := ParseValue(t, q, flags, host);
      if element.Parsed? {
        ElementsStay(t, SkipComma(t, element.end), flags, host, done + [element.value]);
      }
    }
  }

  lemma {:induction false} MembersStay(t: string, p: nat, flags: Flags, host: Host, done: seq<Member>)
    requires p <= |t|
    ensures var r := ParseMembers(t, p, flags, host, done); r.Parsed? ==> done <= r.value.members
    decreases |t| - p
  {
    hide SkipBlanks, SkipComma, ParseValue, ParseKey;
    var q := SkipBlanks(t, p, flags);
    if q < |t| && t[q] != '}' {
      var key := ParseKey(t, q, flags, host);
      if key.Parsed? {
        var value := ParseValue(t, key.end, flags, host);
        if value.Parsed? {
          MembersStay(t, SkipComma(t, value.end), flags, host, done + [Member(key.value.text, value.value)]);
        }
      }
    }
  }

  /** A value with an illegible string or key is not what the parser makes of it. */
  lemma {:induction false} IllegibleMissed(t: string, p: nat, v: Json, layout: Layout, flags: Flags, host: Host)
    requires layout.quote == '\'' && EitherComma(layout) && flags.singleQuotes && Made(v, host) && !Readable(v)
    requires p <= |t| && At(t, p, Generate(v, layout, host))
    ensures Misses(ParseValue(t, p, flags, host), v)
    decreases v, 3
  {
    hide Generate, At, ParseValue;
    match v
    case Text(text) =>
      TextIsQuoted(text, layout, host);
      TextMissed(t, p, text, layout, flags, host);
    case Array(xs) => ArrayMissed(t, p, xs, layout, flags, host);
    case Object(ms) => ObjectMissed(t, p, ms, layout, flags, host);
  }

  lemma TextIsQuoted(text: string, layout: Layout, host: Host)
    ensures Generate(Text(text), layout, host) == layout.Quoted(text)
  {
  }

  lemma ArrayMissed(t: string, p: nat, xs: seq<Json>, layout: Layout, flags: Flags, host: Host)
    requires layout.quote == '\'' && EitherComma(layout) && flags.singleQuotes && Made(Array(xs), host) && !AllReadable(xs)
    requires p <= |t| && At(t, p, Generate(Array(xs), layout, host))
    ensures Misses(ParseValue(t, p, flags, host), Array(xs))
    decreases xs, 2
  {
    hide Elements, ParseElements, At, SkipBlanks, Layout.Indent, Layout.Newline, Readable;
    AtSplit(t, p, ['['], Remaining(layout.Newline(), xs, layout.Deeper(), layout.Dedent(), [']'], host));
    NothingSkipped(t, p, ['['], flags);
    DedentIsWhite(layout);
    ElementsMissed(t, p + 1, layout.Newline(), xs, layout.Deeper(), layout.Dedent(), flags, host, []);
    assert [] + xs == xs;
  }

  lemma ObjectMissed(t: string, p: nat, ms: seq<Member>, layout: Layout, flags: Flags, host: Host)
    requires layout.quote == '\'' && EitherComma(layout) && flags.singleQuotes && Made(Object(ms), host) && !AllLegible(ms)
    requires p <= |t| && At(t, p, Generate(Object(ms), layout, host))
    ensures Misses(ParseValue(t, p, flags, host), Object(ms))
    decreases ms, 2
  {
    hide Members, ParseMembers, At, SkipBlanks, Layout.Indent, Layout.Newline, Readable, Legible;
    AtSplit(t, p, ['{'], layout.Newline() + (Members(ms, layout.Deeper(), host) + (layout.Dedent() + ['}'])));
    NothingSkipped(t, p, ['{'], flags);
    DedentIsWhite(layout);
    MembersMissed(t, p + 1, layout.Newline(), ms, layout.Deeper(), layout.Dedent(), flags, host, []);
    assert [] + ms == ms;
  }

  lemma TextMissed(t: string, p: nat, text: string, layout: Layout, flags: Flags, host: Host)
    requires layout.quote == '\'' && flags.singleQuotes && !Legible(text)
    requires p <= |t| && At(t, p, layout.Quoted(text))
    ensures Misses(ParseValue(t, p, flags, host), Text(text))
  {
    hide ParseString, At, SkipBlanks, Strings.Escape;
    NothingSkipped(t, p, layout.Quoted(text), flags);
    SingleQuotedRead(t, p, text, flags);
  }

  predicate AllReadable(xs: seq<Json>) {
    forall i :: 0 <= i < |xs| ==> Readable(xs[i])
  }

  lemma {:induction false} ElementsMissed(t: string, p: nat, w: string, xs: seq<Json>, layout: Layout, close: string,
      flags: Flags, host: Host, done: seq<Json>)
    requires layout.quote == '\'' && EitherComma(layout) && flags.singleQuotes && !AllReadable(xs)
    requires (forall i :: 0 <= i < |xs| ==> Made(xs[i], host)) && AllWhite(w) && AllWhite(close)
    requires p <= |t| && At(t, p, Remaining(w, xs, layout, close, [']'], host))
    ensures Misses(ParseElements(t, p, flags, host, done), Array(done + xs))
    decreases xs, 1
  {
    hide At, Generate, Elements, Behind, SkipBlanks, SkipComma, SkipWhite, ParseElements, ParseValue, Remaining, Made, Readable,
      Layout.Indent, Layout.Newline, IsWhite;
    DedentIsWhite(layout);
    var q := ElementFound(t, p, w, xs, layout, close, [']'], flags, host);
    var e := q + |Generate(xs[0], layout, host)|;
    ElementAdded(t, p, flags, host, done);
    assert done + [xs[0]] + xs[1..] == done + xs;
    if Readable(xs[0]) {
      GeneratedParses(t, q, xs[0], layout, flags, host);
      assert |xs| > 1;
      CommaPassed(t, e, Elements(xs[1..], layout, host), layout, close, [']']);
      RemainingIs(layout.Newline(), xs[1..], layout, close, [']'], host);
      var n := ElementFound(t, e + 1, layout.Newline(), xs[1..], layout, close, [']'], flags, host);
      CommaOrBlank(t, e, n, layout, flags);
      ElementsFromBlanks(t, SkipComma(t, e), e + 1, flags, host, done + [xs[0]]);
      ElementsMissed(t, e + 1, layout.Newline(), xs[1..], layout, close, flags, host, done + [xs[0]]);
    } else {
      IllegibleMissed(t, q, xs[0], layout, flags, host);
      var r := ParseValue(t, q, flags, host);
      if r.Parsed? {
        ElementsStay(t, SkipComma(t, r.end), flags, host, done + [r.value]);
        DifferThere(done, r.value, xs);
      }
    }
  }

  /** One round of the array loop that ends neither the array nor in failure. */
  lemma ElementAdded(t: string, p: nat, flags: Flags, host: Host, done: seq<Json>)
    requires p <= |t|
    ensures var q := SkipBlanks(t, p, flags); q < |t| && t[q] != ']' ==>
      var r := ParseValue(t, q, flags, host);
      ParseElements(t, p, flags, host, done) == if r.Failed? then Failed else
        ParseElements(t, SkipComma(t, r.end), flags, host, done + [r.value])
  {
    hide SkipBlanks, SkipComma, ParseValue;
  }

  lemma DifferThere<T>(done: seq<T>, y: T, xs: seq<T>)
    requires xs != [] && y != xs[0]
    ensures !(done + [y] <= done + xs)
  {
    assert (done + [y])[|done|] == y && (done + xs)[|done|] == xs[0];
  }

  predicate AllLegible(ms: seq<Member>) {
    forall i :: 0 <= i < |ms| ==> Legible(ms[i].key) && Readable(ms[i].value)
  }

  lemma {:induction false} MembersMissed(t: string, p: nat, w: string, ms: seq<Member>, layout: Layout, close: string,
      flags: Flags, host: Host, done: seq<Member>)
    requires layout.quote == '\'' && EitherComma(layout) && flags.singleQuotes && !AllLegible(ms)
    requires (forall i :: 0 <= i < |ms| ==> Made(ms[i].value, host)) && AllWhite(w) && AllWhite(close)
    requires p <= |t| && At(t, p, w + (Members(ms, layout, host) + (close + ['}'])))
    ensures Misses(ParseMembers(t, p, flags, host, done), Object(done + ms))
    decreases ms, 1
  {
    hide At, Generate, Members, MemberText, Behind, SkipBlanks, SkipComma, SkipWhite, ParseMembers, ParseValue, ParseKey,
      Made, Readable, Legible, Layout.Indent, Layout.Newline, Layout.Quoted, IsWhite, Space, Valued;
    DedentIsWhite(layout);
    var q, rest := KeyPlaced(t, p, w, ms, layout, close + ['}'], flags, host);
    MemberAdded(t, p, flags, host, done);
    assert done + [ms[0]] + ms[1..] == done + ms;
    if !Legible(ms[0].key) {
      KeyMissed(t, q, ms[0].key, rest, layout, flags, host);
      MemberMissed(t, p, q, ms, flags, host, done);
    } else {
      var k := KeyParses(t, q, ms, layout, close + ['}'], flags, host);
      var v, e := ValueFound(t, k, ms, layout, close, flags, host);
      if !Readable(ms[0].value) {
        IllegibleMissed(t, v, ms[0].value, layout, flags, host);
        MemberMissed(t, p, q, ms, flags, host, done);
      } else {
        GeneratedParses(t, v, ms[0].value, layout, flags, host);
        assert |ms| > 1;
        CommaPassed(t, e, Members(ms[1..], layout, host), layout, close, ['}']);
        var n, more := KeyPlaced(t, e + 1, layout.Newline(), ms[1..], layout, close + ['}'], flags, host);
        CommaOrBlank(t, e, n, layout, flags);
        MembersFromBlanks(t, SkipComma(t, e), e + 1, flags, host, done + [ms[0]]);
        MembersMissed(t, e + 1, layout.Newline(), ms[1..], layout, close, flags, host, done + [ms[0]]);
      }
    }
  }

  /** An illegible key is refused or read as another. */
  lemma KeyMissed(t: string, q: nat, key: string, rest: string, layout: Layout, flags: Flags, host: Host)
    requires layout.quote == '\'' && flags.singleQuotes && !Legible(key)
    requires q <= |t| && At(t, q, layout.Quoted(key) + rest)
    ensures Misses(ParseKey(t, q, flags, host), Text(key))
  {
    hide At, ParseValue, SkipWhite, Layout.Quoted;
    AtSplit(t, q, layout.Quoted(key), rest);
    TextMissed(t, q, key, layout, flags, host);
  }

  /** When the first member's key or value is read wrong, so is the object. */
  lemma MemberMissed(t: string, p: nat, q: nat, ms: seq<Member>, flags: Flags, host: Host, done: seq<Member>)
    requires ms != [] && p <= |t| && q == SkipBlanks(t, p, flags) < |t| && t[q] != '}'
    requires var key := ParseKey(t, q, flags, host);
      Misses(key, Text(ms[0].key)) || Misses(ParseValue(t, key.end, flags, host), ms[0].value)
    ensures Misses(ParseMembers(t, p, flags, host, done), Object(done + ms))
  {
    hide SkipBlanks, SkipComma, ParseKey, ParseValue, ParseMembers;
    MemberAdded(t, p, flags, host, done);
    var key := ParseKey(t, q, flags, host);
    if key.Parsed? {
      var value := ParseValue(t, key.end, flags, host);
      if value.Parsed? {
        var m := Member(key.value.text, value.value);
        MembersStay(t, SkipComma(t, value.end), flags, host, done + [m]);
        DifferThere(done, m, ms);
      }
    }
  }

  // ---------------------------------------------------------------- the round trip

  /** Writing any value, compact or pretty at any indent, and parsing the text gives the value back
      exactly when there is no string and no key in it; otherwise the parse fails. */
  lemma RoundTripIff(v: Json, layout: Layout, flags: Flags, host: Host)
    requires Made(v, host) && layout.quote == '"' && EitherComma(layout)
    ensures Parse(Generate(v, layout, host), flags, host) == if Quoteless(v) then Some(v) else None
  {
    hide Generate, ParseValue, At;
    var t := Generate(v, layout, host);
    AtIsSlice(t, 0, t);
    GeneratedParses(t, 0, v, layout, flags, host);
    NoBlanksAtEnd(t, flags);
  }

  lemma NoBlanksAtEnd(t: string, flags: Flags)
    ensures SkipBlanks(t, |t|, flags) == |t|
  {
  }

  /** The same text with single quotes for the double ones, where they are allowed, is parsed to the
      value, strings, keys and all, exactly if every string and key in it is legible. */
  lemma SingleQuotedRoundTripIff(v: Json, layout: Layout, flags: Flags, host: Host)
    requires Made(v, host) && layout.quote == '\'' && EitherComma(layout) && flags.singleQuotes
    ensures Parse(Generate(v, layout, host), flags, host) == Some(v) <==> Readable(v)
  {
    hide Generate, ParseValue, At, Readable;
    var t := Generate(v, layout, host);
    AtIsSlice(t, 0, t);
    NoBlanksAtEnd(t, flags);
    if Readable(v) {
      GeneratedParses(t, 0, v, layout, flags, host);
    } else {
      IllegibleMissed(t, 0, v, layout, flags, host);
    }
  }

  /** Commas are optional: with a blank in the place of every comma the generated text has the same
      outcome. */
  lemma CommasAreOptional(v: Json, layout: Layout, flags: Flags, host: Host)
    requires Made(v, host) && layout.quote == '"' && layout.comma == ','
    ensures Parse(Generate(v, layout.(comma := ' '), host), flags, host) == Parse(Generate(v, layout, host), flags, host)
  {
    hide *;
    CommaSpellings(layout);
    RoundTripIff(v, layout, flags, host);
    RoundTripIff(v, layout.(comma := ' '), flags, host);
  }

  lemma CommaSpellings(layout: Layout)
    ensures layout.comma == ',' ==> EitherComma(layout) && EitherComma(layout.(comma := ' '))
  {
  }

  /** The round trip through the two objects: a value is written to a string and the string is read. */
  method Transmit(v: Json, pretty: bool, flags: Flags, host: Host) returns (r: Option<Json>)
    requires Made(v, host)
    ensures r == if Quoteless(v) then Some(v) else None
  {
    var text := ToString(v, pretty, host);
    RoundTripIff(v, Layout(pretty, 0, '"', ','), flags, host);
    GenerateIsCString(v, Layout(pretty, 0, '"', ','), host);
    var parser := new Parser(text, flags, host);
    r := parser.ParseAll();
  }

  /** An array's closing bracket may as well be missing: the generated text without it parses to
      the same array. */
  lemma ClosingBracketIsOptional(xs: seq<Json>, layout: Layout, flags: Flags, host: Host)
    requires Made(Array(xs), host) && Quoteless(Array(xs)) && layout.quote == '"' && EitherComma(layout)
    ensures var t := Generate(Array(xs), layout, host);
            t[|t| - 1] == ']' && Parse(t[..|t| - 1], flags, host) == Some(Array(xs))
  {
    hide Elements, ParseElements, At, SkipBlanks, Layout.Indent, Layout.Newline;
    var t := Generate(Array(xs), layout, host);
    var rest := Remaining(layout.Newline(), xs, layout.Deeper(), layout.Dedent(), [], host);
    var cut := ['['] + rest;
    WithoutBracket(xs, layout, host);
    AtIsSlice(cut, 0, cut);
    AtSplit(cut, 0, ['['], rest);
    NothingSkipped(cut, 0, ['['], flags);
    DedentIsWhite(layout);
    ElementsParse(cut, 1, layout.Newline(), xs, layout.Deeper(), layout.Dedent(), [], flags, host, []);
    assert [] + xs == xs;
    NoBlanksAtEnd(cut, flags);
  }

  lemma WithoutBracket(xs: seq<Json>, layout: Layout, host: Host)
    ensures var t := Generate(Array(xs), layout, host);
            t == (['['] + Remaining(layout.Newline(), xs, layout.Deeper(), layout.Dedent(), [], host)) + [']']
  {
    hide Elements, Layout.Indent, Layout.Newline;
    var elements, dedent := Elements(xs, layout.Deeper(), host), layout.Dedent();
    assert dedent + [] == dedent;
    Regroup(elements, dedent, [']']);
    Regroup(layout.Newline(), elements + dedent, [']']);
    Regroup(['['], layout.Newline() + (elements + dedent), [']']);
  }

  // ---------------------------------------------------------------- strings, past the quote test

  /** Between single quotes, where they are allowed, a string is read up to the first single quote in
      it, which the generator does not escape; it is read whole and right exactly if it is legible. */
  lemma SingleQuotedRead(t: string, p: nat, s: string, flags: Flags)
    requires flags.singleQuotes
    requires p < |t| && At(t, p, ['\''] + (Strings.Escape(s) + ['\'']))
    ensures ParseString(t, p, flags).Parsed?
    ensures ParseString(t, p, flags).value == Text(s) <==> Legible(s)
    ensures Legible(s) ==> ParseString(t, p, flags).end == p + |Strings.Escape(s)| + 2
  {
    hide Strings.ClosingQuote, Strings.Unescape, Strings.Escape, Strings.Surviving;
    AtSplit(t, p, ['\''], Strings.Escape(s) + ['\'']);
    Strings.ClosingQuoteFound(t, p + 1, s, '\'');
    Strings.UnescapeEscape(Strings.UpToSingle(s));
    Strings.SurvivingReached(s);
  }

  /** A double that equals its integer part is written as that integer, and so is read as one. */
  lemma WholeDoublesAreIntegers(n: int, layout: Layout, flags: Flags, host: Host)
    requires INT64_MIN <= n <= INT64_MAX && layout.quote == '"' && EitherComma(layout)
    ensures Parse(Generate(Number(false, n, host.double(n)), layout, host), flags, host) == Some(Number(true, n, host.double(n)))
  {
    hide ParseValue;
    RoundTripIff(Number(true, n, host.double(n)), layout, flags, host);
  }

  /** Nor does an object need its closing brace. */
  lemma ClosingBraceIsOptional(w: string, flags: Flags, host: Host)
    requires AllWhite(w)
    ensures Parse("{" + w, flags, host) == Some(Object([]))
  {
    hide SkipBlanks, SkipWhite, ParseElements, ParseMembers, ParseKey, At;
    var t := "{" + w;
    AtIsSlice(t, 0, t);
    AtSplit(t, 0, "{", w);
    NothingSkipped(t, 0, "{", flags);
    BlanksToEnd(t, 1, w, flags);
    EndClosesObject(t, 1, flags, host);
    assert ParseValue(t, 0, flags, host) == Parsed(Object([]), |t|);
    NoBlanksAtEnd(t, flags);
  }

  lemma EndClosesObject(t: string, p: nat, flags: Flags, host: Host)
    requires p <= |t| && SkipBlanks(t, p, flags) == |t|
    ensures ParseMembers(t, p, flags, host, []) == Parsed(Object([]), |t|)
  {
    hide SkipBlanks, ParseKey, ParseValue;
  }

  // ---------------------------------------------------------------- what stands around a value

  lemma {:induction false} WhitePassed(t: string, p: nat, w: string, flags: Flags)
    requires AllWhite(w) && p <= |t| && At(t, p, w)
    ensures p + |w| <= |t| && SkipBlanks(t, p, flags) == SkipBlanks(t, p + |w|, flags)
    decreases |w|
  {
    if w != [] {
      WhitePassed(t, p + 1, w[1..], flags);
    }
  }

  /** Behind a generated text, with a blank between if it could go on, nothing but blanks and comments
      may stand: `1 x` and `[] []` are refused whole. */
  lemma TrailingRefused(v: Json, w: string, rest: string, layout: Layout, flags: Flags, host: Host)
    requires Made(v, host) && layout.quote == '"' && EitherComma(layout) && AllWhite(w)
    requires rest != [] && !IsWhite(rest[0]) && rest[0] != '/' && (w != [] || !InNumber(rest[0]))
    ensures Parse(Generate(v, layout, host) + (w + rest), flags, host) == None
  {
    hide Generate, ParseValue, At, SkipBlanks, Made, Spelled, Survives;
    var g := Generate(v, layout, host);
    var t := g + (w + rest);
    AtIsSlice(t, 0, t);
    AtSplit(t, 0, g, w + rest);
    AtSplit(t, |g|, w, rest);
    AtIsSlice(t, |g| + |w|, rest);
    NumberStops(w, rest);
    assert t[|g|] == (w + rest)[0];
    SpelledAsIs(v, layout, flags);
    GeneratedParses(t, 0, v, layout, flags, host);
    WhitePassed(t, |g|, w, flags);
    NothingSkipped(t, |g| + |w|, rest, flags);
  }

  lemma NumberStops(w: string, rest: string)
    requires AllWhite(w) && rest != [] && (w != [] || !InNumber(rest[0]))
    ensures !InNumber((w + rest)[0])
  {
    if w != [] {
      assert (w + rest)[0] == w[0] && IsWhite(w[0]);
    } else {
      assert w + rest == rest;
    }
  }

  lemma SpelledAsIs(v: Json, layout: Layout, flags: Flags)
    requires layout.quote == '"' && EitherComma(layout)
    ensures Spelled(v, layout, flags)
  {}

  /** Two generated texts with a blank between are refused. */
  lemma TwoValuesRefused(v: Json, u: Json, layout: Layout, flags: Flags, host: Host)
    requires Made(v, host) && Made(u, host) && layout.quote == '"' && EitherComma(layout)
    ensures Parse(Generate(v, layout, host) + (" " + Generate(u, layout, host)), flags, host) == None
  {
    hide Generate, Made;
    StartsWell(u, layout, host);
    TrailingRefused(v, " ", Generate(u, layout, host), layout, flags, host);
  }

  // ---------------------------------------------------------------- comments

  /** `//` up to the next end of line, which closes it, or a block that ends where it is first closed. */
  ghost predicate IsComment(c: string) {
    || (|c| >= 3 && c[0] == '/' && c[1] == '/' && c[|c| - 1] == '\n' && forall i :: 2 <= i < |c| - 1 ==> c[i] != '\n')
    || (|c| >= 4 && c[0] == '/' && c[1] == '*' && c[|c| - 2] == '*' && c[|c| - 1] == '/'
        && forall i :: 2 <= i < |c| - 2 ==> !(c[i] == '*' && c[i + 1] == '/'))
  }

  lemma {:induction false} LineEndIs(t: string, p: nat, end: nat)
    requires p <= end < |t| && t[end] == '\n' && forall i :: p <= i < end ==> t[i] != '\n'
    ensures LineEnd(t, p) == end
    decreases end - p
  {
    if p < end {
      LineEndIs(t, p + 1, end);
    }
  }

  lemma {:induction false} BlockEndIs(t: string, p: nat, end: nat)
    requires p <= end && end + 1 < |t| && t[end] == '*' && t[end + 1] == '/'
    requires forall i :: p <= i < end ==> !(t[i] == '*' && t[i + 1] == '/')
    ensures BlockEnd(t, p) == end
    decreases end - p
  {
    if p < end {
      BlockEndIs(t, p + 1, end);
    }
  }

  /** Where comments are allowed, one is skipped like a blank. */
  lemma CommentPassed(t: string, p: nat, c: string, flags: Flags)
    requires flags.comments && IsComment(c) && p + |c| <= |t| && t[p..p + |c|] == c
    ensures SkipBlanks(t, p, flags) == SkipBlanks(t, p + |c|, flags)
  {
    forall i | 0 <= i < |c|
      ensures t[p + i] == c[i]
    {
      assert t[p..p + |c|][i] == c[i];
    }
    var last := p + |c|;
    if c[1] == '/' {
      forall i | p + 2 <= i < last - 1
        ensures t[i] != '\n'
      {
        assert t[i] == c[i - p];
      }
      LineEndIs(t, p + 2, last - 1);
      assert SkipComment(t, p, flags) == Comment(true, last - 1);
      assert SkipWhite(t, last - 1) == SkipWhite(t, last);
    } else {
      forall i | p + 2 <= i < last - 2
        ensures !(t[i] == '*' && t[i + 1] == '/')
      {
        assert t[i] == c[i - p] && t[i + 1] == c[i + 1 - p];
      }
      BlockEndIs(t, p + 2, last - 2);
      assert SkipComment(t, p, flags) == Comment(true, last);
    }
  }

  /** Wherever the parser looks for a value, an element or a member, a comment is a blank: what it
      makes of the rest is the same. */
  lemma CommentIsBlank(t: string, p: nat, c: string, flags: Flags, host: Host)
    requires flags.comments && IsComment(c) && p + |c| <= |t| && t[p..p + |c|] == c
    ensures ParseValue(t, p, flags, host) == ParseValue(t, p + |c|, flags, host)
    ensures forall done :: ParseElements(t, p, flags, host, done) == ParseElements(t, p + |c|, flags, host, done)
    ensures forall done :: ParseMembers(t, p, flags, host, done) == ParseMembers(t, p + |c|, flags, host, done)
  {
    hide SkipBlanks, ParseValue, ParseElements, ParseMembers, IsComment;
    CommentPassed(t, p, c, flags);
    ValueFromBlanks(t, p, p + |c|, flags, host);
    forall done
      ensures ParseElements(t, p, flags, host, done) == ParseElements(t, p + |c|, flags, host, done)
    {
      ElementsFromBlanks(t, p, p + |c|, flags, host, done);
    }
    forall done
      ensures ParseMembers(t, p, flags, host, done) == ParseMembers(t, p + |c|, flags, host, done)
    {
      MembersFromBlanks(t, p, p + |c|, flags, host, done);
    }
  }

  lemma ValueFromBlanks(t: string, p: nat, q: nat, flags: Flags, host: Host)
    requires p <= |t| && q <= |t| && SkipBlanks(t, p, flags) == SkipBlanks(t, q, flags)
    ensures ParseValue(t, p, flags, host) == ParseValue(t, q, flags, host)
  {
    hide SkipBlanks, ParseElements, ParseMembers, ParseNumber, ParseString;
  }

  /** A generated text between comments has the outcome of the text alone; without the flag, a comment
      in front of it is refused. */
  lemma CommentsAround(c: string, v: Json, d: string, layout: Layout, flags: Flags, host: Host)
    requires Made(v, host) && layout.quote == '"' && EitherComma(layout) && IsComment(c) && IsComment(d)
    ensures Parse(c + (Generate(v, layout, host) + d), flags, host)
         == if flags.comments then Parse(Generate(v, layout, host), flags, host) else None
  {
    hide Generate, ParseValue, At, SkipBlanks, Made, Spelled, IsComment, Quoteless;
    var g := Generate(v, layout, host);
    var t := c + (g + d);
    CommentBegins(c);
    if flags.comments {
      ReadBetweenComments(c, v, d, t, layout, flags, host);
      CommentsPlaced(c, g, d, t);
      CommentPassed(t, |c| + |g|, d, flags);
      NoBlanksAtEnd(t, flags);
      RoundTripIff(v, layout, flags, host);
    } else {
      SlashRefused(t, flags, host);
    }
  }

  lemma CommentsPlaced(c: string, g: string, d: string, t: string)
    requires t == c + (g + d)
    ensures t[0..|c|] == c && |t| == |c| + |g| + |d| && t[|c|..|c| + |g|] == g && t[|c| + |g|..|t|] == d
  {
    var rest := g + d;
    TwoParts(c, rest);
    TwoParts(g, d);
    assert t[|c|..|c| + |g|] == rest[..|g|];
    assert t[|c| + |g|..|t|] == rest[|g|..];
  }

  lemma TwoParts(a: string, b: string)
    ensures (a + b)[0..|a|] == a && (a + b)[|a|..] == b
  {}

  lemma ReadBetweenComments(c: string, v: Json, d: string, t: string, layout: Layout, flags: Flags, host: Host)
    requires Made(v, host) && layout.quote == '"' && EitherComma(layout) && IsComment(c) && IsComment(d) && flags.comments
    requires t == c + (Generate(v, layout, host) + d)
    ensures ParseValue(t, 0, flags, host) == if Quoteless(v) then Parsed(v, |c| + |Generate(v, layout, host)|) else Failed
  {
    hide Generate, ParseValue, At, SkipBlanks, Made, Spelled, IsComment, Quoteless;
    CommentsPlaced(c, Generate(v, layout, host), d, t);
    AtIsSlice(t, |c|, Generate(v, layout, host));
    CommentBegins(d);
    assert t[|c| + |Generate(v, layout, host)|] == d[0];
    SpelledAsIs(v, layout, flags);
    CommentIsBlank(t, 0, c, flags, host);
    GeneratedParses(t, |c|, v, layout, flags, host);
  }

  lemma CommentBegins(c: string)
    requires IsComment(c)
    ensures c != [] && c[0] == '/' && !InNumber(c[0])
  {}

  lemma SlashRefused(t: string, flags: Flags, host: Host)
    requires t != [] && t[0] == '/' && !flags.comments
    ensures ParseValue(t, 0, flags, host) == Failed
  {}

  /** A block that is never closed does not fail: it ends in front of the last character, which is then
      read. A digit there is the whole text's value. */
  lemma UnclosedCommentIsRead(body: string, d: char, flags: Flags, host: Host)
    requires flags.comments && '0' <= d <= '9'
    requires forall i :: 0 <= i < |body| - 1 ==> !(body[i] == '*' && body[i + 1] == '/')
    ensures var n := d as int - '0' as int;
      Parse("/*" + (body + [d]), flags, host) == Some(Number(true, n, host.double(n)))
  {
    hide ParseElements, ParseMembers, ParseString, ParseNumber;
    var t, n: nat := "/*" + (body + [d]), d as int - '0' as int;
    var last := |t| - 1;
    assert t[last] == d && t[last..] == [d];
    UnclosedEnd(t, body, d, 2);
    assert SkipComment(t, 0, flags) == Comment(false, last);
    assert SkipBlanks(t, 0, flags) == last;
    assert Decimal(n) == [d];
    AtIsSlice(t, last, [d]);
    NumberRead(t, last, n, host);
    NoBlanksAtEnd(t, flags);
  }

  lemma {:induction false} UnclosedEnd(t: string, body: string, d: char, p: nat)
    requires t == "/*" + (body + [d]) && 2 <= p < |t| && d != '/'
    requires forall i :: 0 <= i < |body| - 1 ==> !(body[i] == '*' && body[i + 1] == '/')
    ensures BlockEnd(t, p) == |t| - 1
    decreases |t| - p
  {
    if p + 1 < |t| {
      assert t[p] == body[p - 2];
      assert p + 2 < |t| ==> t[p + 1] == body[p - 1];
      UnclosedEnd(t, body, d, p + 1);
    }
  }

  // ---------------------------------------------------------------- flags that do nothing

  /** The same flags but for the trailing comma's and the unquoted keys'. */
  predicate SameButIdle(f: Flags, g: Flags) {
    f.comments == g.comments && f.singleQuotes == g.singleQuotes
  }

  lemma {:induction false} BlanksIgnoreIdleFlags(t: string, p: nat, f: Flags, g: Flags)
    requires p <= |t| && SameButIdle(f, g)
    ensures SkipBlanks(t, p, f) == SkipBlanks(t, p, g)
    decreases |t| - p
  {
    var c := SkipComment(t, SkipWhite(t, p), f);
    if c.skipped {
      BlanksIgnoreIdleFlags(t, c.end, f, g);
    }
  }

  lemma StringIgnoresIdleFlags(t: string, q: nat, f: Flags, g: Flags)
    requires q < |t| && SameButIdle(f, g)
    ensures ParseString(t, q, f) == ParseString(t, q, g)
    ensures t[q] != '\'' ==> ParseString(t, q, f) == Failed
  {
    hide Strings.ClosingQuote, Strings.Unescape;
  }

  lemma {:induction false} ValueIgnoresIdleFlags(t: string, p: nat, f: Flags, g: Flags, host: Host)
    requires p <= |t| && SameButIdle(f, g)
    ensures ParseValue(t, p, f, host) == ParseValue(t, p, g, host)
    decreases |t| - p, 1
  {
    hide SkipBlanks, ParseElements, ParseMembers, ParseNumber, ParseString, Literal;
    BlanksIgnoreIdleFlags(t, p, f, g);
    var q := SkipBlanks(t, p, f);
    if q < |t| {
      StringIgnoresIdleFlags(t, q, f, g);
      ElementsIgnoreIdleFlags(t, q + 1, f, g, host, []);
      MembersIgnoreIdleFlags(t, q + 1, f, g, host, []);
    }
  }

  lemma {:induction false} ElementsIgnoreIdleFlags(t: string, p: nat, f: Flags, g: Flags, host: Host, done: seq<Json>)
    requires p <= |t| && SameButIdle(f, g)
    ensures ParseElements(t, p, f, host, done) == ParseElements(t, p, g, host, done)
    decreases |t| - p, 2
  {
    hide SkipBlanks, ParseValue, SkipComma;
    BlanksIgnoreIdleFlags(t, p, f, g);
    var q := SkipBlanks(t, p, f);
    if q < |t| && t[q] != ']' {
      ValueIgnoresIdleFlags(t, q, f, g, host);
      var r := ParseValue(t, q, f, host);
      if r.Parsed? {
        ElementsIgnoreIdleFlags(t, SkipComma(t, r.end), f, g, host, done + [r.value]);
      }
    }
  }

  lemma {:induction false} MembersIgnoreIdleFlags(t: string, p: nat, f: Flags, g: Flags, host: Host, done: seq<Member>)
    requires p <= |t| && SameButIdle(f, g)
    ensures ParseMembers(t, p, f, host, done) == ParseMembers(t, p, g, host, done)
    decreases |t| - p, 2
  {
    hide SkipBlanks, SkipWhite, ParseValue, SkipComma;
    BlanksIgnoreIdleFlags(t, p, f, g);
    var q := SkipBlanks(t, p, f);
    if q < |t| && t[q] != '}' {
      ValueIgnoresIdleFlags(t, q, f, g, host);
      var key := ParseKey(t, q, f, host);
      if key.Parsed? {
        ValueIgnoresIdleFlags(t, key.end, f, g, host);
        var value := ParseValue(t, key.end, f, host);
        if value.Parsed? {
          MembersIgnoreIdleFlags(t, SkipComma(t, value.end), f, g, host, done + [Member(key.value.text, value.value)]);
        }
      }
    }
  }

  /** The flags that are to allow trailing commas and unquoted keys change nothing, on any text:
      commas are optional without the one, and a key without quotes fails the quote test with the
      other. */
  lemma IdleFlags(t: string, f: Flags, g: Flags, host: Host)
    requires SameButIdle(f, g)
    ensures Parse(t, f, host) == Parse(t, g, host)
  {
    hide ParseValue, SkipBlanks;
    ValueIgnoresIdleFlags(t, 0, f, g, host);
    var r := ParseValue(t, 0, f, host);
    if r.Parsed? {
      BlanksIgnoreIdleFlags(t, r.end, f, g);
    }
  }
}
