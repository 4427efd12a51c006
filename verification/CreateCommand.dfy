/** Arguments of the create command (mudd/src/api/websocket.rs:1303-1428): words and quoted strings, then what they
    mean. */
module CreateCommand {
  import opened Wrappers
  import I = Integers
  import T = Text

  // ----- Tokens -----

  /** A quoted string from behind its opening quote, and what follows. A backslash takes the next character as it is;
      the closing quote may be missing. */
  function Quoted(s: string): (r: (string, string))
    ensures |r.1| <= |s|
  {
    if s == "" then ("", "")
    else if s[0] == '"' then ("", s[1..])
    else if s[0] == '\\' then
      if |s| == 1 then ("", "")
      else
        var (text, rest) := Quoted(s[2..]);
        ([s[1]] + text, rest)
    else
      var (text, rest) := Quoted(s[1..]);
      ([s[0]] + text, rest)
  }

  function Word(s: string): (r: (string, string))
    ensures |r.1| <= |s|
    ensures s != "" && !T.IsWhitespace(s[0]) ==> |r.1| < |s|
  {
    if s == "" || T.IsWhitespace(s[0]) then ("", s)
    else
      var (word, rest) := Word(s[1..]);
      ([s[0]] + word, rest)
  }

  /** The token that starts here, and what follows. */
  function Token(s: string): (r: (string, string))
    requires s != "" && !T.IsWhitespace(s[0])
    ensures |r.1| < |s|
  {
    if s[0] == '"' then Quoted(s[1..]) else Word(s)
  }

  lemma {:induction false} TrimStartShrinks(s: string)
    ensures |T.TrimStart(s)| <= |s| && (T.TrimStart(s) != "" ==> !T.IsWhitespace(T.TrimStart(s)[0]))
  {
    if s != "" && T.IsWhitespace(s[0]) { TrimStartShrinks(s[1..]); }
  }

  function Tokenize(s: string): seq<string>
    decreases |s|
  {
    TrimStartShrinks(s);
    var r := T.TrimStart(s);
    if r == "" then []
    else
      var (token, rest) := Token(r);
      [token] + Tokenize(rest)
  }

  // ----- Quoting -----

  function Escape(s: string): string {
    if s == "" then ""
    else (if s[0] == '"' || s[0] == '\\' then ['\\', s[0]] else [s[0]]) + Escape(s[1..])
  }

  function Quote(s: string): string { "\"" + Escape(s) + "\"" }

  lemma QuotedOne(c: char, tail: string)
    ensures Quoted(['\\', c] + tail) == ([c] + Quoted(tail).0, Quoted(tail).1)
    ensures c != '"' && c != '\\' ==> Quoted([c] + tail) == ([c] + Quoted(tail).0, Quoted(tail).1)
  {
    assert (['\\', c] + tail)[2..] == tail && ([c] + tail)[1..] == tail;
  }

  lemma EscapeOne(s: string, rest: string)
    requires s != ""
    ensures Escape(s) + rest
         == (if s[0] == '"' || s[0] == '\\' then ['\\', s[0]] else [s[0]]) + (Escape(s[1..]) + rest)
  {
  }

  lemma QuotedEscapeStep(s: string, rest: string)
    requires s != "" && Quoted(Escape(s[1..]) + "\"" + rest) == (s[1..], rest)
    ensures Quoted(Escape(s) + "\"" + rest) == (s, rest)
  {
    hide Quoted, Escape;
    var end := "\"" + rest;
    assert Escape(s) + "\"" + rest == Escape(s) + end && Escape(s[1..]) + "\"" + rest == Escape(s[1..]) + end;
    QuotedOne(s[0], Escape(s[1..]) + end);
    EscapeOne(s, end);
    assert s == [s[0]] + s[1..];
  }

  lemma {:induction false} QuotedEscape(s: string, rest: string)
    ensures Quoted(Escape(s) + "\"" + rest) == (s, rest)
  {
    if s == "" {
      assert Escape(s) + "\"" + rest == "\"" + rest && ("\"" + rest)[1..] == rest;
    } else {
      hide Quoted, Escape;
      QuotedEscape(s[1..], rest);
      QuotedEscapeStep(s, rest);
    }
  }

  /** Quoted text in which any further characters may have a backslash before them too. */
  function EscapeAlso(s: string, marked: seq<bool>): string
    requires |marked| == |s|
  {
    if s == "" then ""
    else
      (if marked[0] || s[0] == '"' || s[0] == '\\' then ['\\', s[0]] else [s[0]]) + EscapeAlso(s[1..], marked[1..])
  }

  /** What stands behind the text: a closing quote and the rest, nothing, or a lone backslash. */
  predicate Ends(end: string, rest: string) { end == "\"" + rest || (rest == "" && (end == "" || end == "\\")) }

  lemma EscapedOne(s: string, marked: seq<bool>, end: string)
    requires |marked| == |s| && s != ""
    ensures EscapeAlso(s, marked) + end
         == (if marked[0] || s[0] == '"' || s[0] == '\\' then ['\\', s[0]] else [s[0]])
            + (EscapeAlso(s[1..], marked[1..]) + end)
  {
  }

  lemma QuotedStep(s: string, marked: seq<bool>, end: string, rest: string)
    requires |marked| == |s| && s != "" && Quoted(EscapeAlso(s[1..], marked[1..]) + end) == (s[1..], rest)
    ensures Quoted(EscapeAlso(s, marked) + end) == (s, rest)
  {
    hide Quoted, EscapeAlso;
    QuotedOne(s[0], EscapeAlso(s[1..], marked[1..]) + end);
    EscapedOne(s, marked, end);
    assert s == [s[0]] + s[1..];
  }

  /** However it is escaped, the text comes back, and so it does where the input ends before the closing quote. */
  lemma {:induction false} QuotedReadsBack(s: string, marked: seq<bool>, end: string, rest: string)
    requires |marked| == |s| && Ends(end, rest)
    ensures Quoted(EscapeAlso(s, marked) + end) == (s, rest)
  {
    if s == "" {
      assert EscapeAlso(s, marked) + end == end;
      if end != "" { assert end[1..] == rest; }
    } else {
      hide Quoted, EscapeAlso;
      QuotedReadsBack(s[1..], marked[1..], end, rest);
      QuotedStep(s, marked, end, rest);
    }
  }

  predicate Blank(s: string) { forall i | 0 <= i < |s| :: T.IsWhitespace(s[i]) }

  lemma {:induction false} TrimBlank(gap: string, s: string)
    requires Blank(gap)
    ensures T.TrimStart(gap + s) == T.TrimStart(s)
  {
    if gap == "" {
      assert gap + s == s;
    } else {
      assert (gap + s)[1..] == gap[1..] + s;
      TrimBlank(gap[1..], s);
    }
  }

  /** A written token and how it is written: quoted, or bare. */
  datatype Written = InQuotes(text: string) | Bare(text: string)

  predicate CanBeBare(s: string) { s != "" && s[0] != '"' && forall i | 0 <= i < |s| :: !T.IsWhitespace(s[i]) }

  function Write(w: Written): string { if w.InQuotes? then Quote(w.text) else w.text }

  /** Each token behind its gap; a bare word needs a gap or the end behind it. */
  function Layout(ws: seq<Written>, gaps: seq<string>): string
    requires |gaps| == |ws| + 1
  {
    if ws == [] then gaps[0] else gaps[0] + Write(ws[0]) + Layout(ws[1..], gaps[1..])
  }

  predicate WellSpaced(ws: seq<Written>, gaps: seq<string>) {
    && |gaps| == |ws| + 1
    && (forall i | 0 <= i < |gaps| :: Blank(gaps[i]))
    && (forall i | 0 <= i < |ws| && ws[i].Bare? :: CanBeBare(ws[i].text) && (i + 1 < |ws| ==> gaps[i + 1] != ""))
  }

  function Texts(ws: seq<Written>): seq<string> {
    if ws == [] then [] else [ws[0].text] + Texts(ws[1..])
  }

  lemma {:induction false} WordUpToBlank(word: string, rest: string)
    requires forall i | 0 <= i < |word| :: !T.IsWhitespace(word[i])
    requires rest != "" ==> T.IsWhitespace(rest[0])
    ensures Word(word + rest) == (word, rest)
  {
    if word == "" {
      assert word + rest == rest;
    } else {
      assert (word + rest)[1..] == word[1..] + rest;
      WordUpToBlank(word[1..], rest);
      assert word == [word[0]] + word[1..];
    }
  }

  lemma TokenOfWritten(w: Written, rest: string)
    requires w.Bare? ==> CanBeBare(w.text) && (rest != "" ==> T.IsWhitespace(rest[0]))
    ensures var s := Write(w) + rest;
            s != "" && !T.IsWhitespace(s[0]) && Token(s) == (w.text, rest)
  {
    hide Quoted, Word, Escape;
    var s := Write(w) + rest;
    if w.InQuotes? {
      QuotedEscape(w.text, rest);
      assert s[1..] == Escape(w.text) + "\"" + rest;
    } else {
      WordUpToBlank(w.text, rest);
    }
  }

  lemma LayoutStartsBlank(ws: seq<Written>, gaps: seq<string>)
    requires WellSpaced(ws, gaps) && (ws != [] ==> gaps[0] != "")
    ensures Layout(ws, gaps) != "" ==> T.IsWhitespace(Layout(ws, gaps)[0])
  {
    assert Blank(gaps[0]);
  }

  /** The tokenizer reads back every list of strings, however each was written and spaced. */
  lemma {:induction false} TokenizeLayout(ws: seq<Written>, gaps: seq<string>)
    requires WellSpaced(ws, gaps)
    ensures Tokenize(Layout(ws, gaps)) == Texts(ws)
    decreases |ws|
  {
    if ws == [] {
      assert gaps[0] + "" == gaps[0];
      TrimBlank(gaps[0], "");
    } else {
      var rest := Layout(ws[1..], gaps[1..]);
      assert WellSpaced(ws[1..], gaps[1..]);
      if ws[0].Bare? { LayoutStartsBlank(ws[1..], gaps[1..]); }
      TokenOfWritten(ws[0], rest);
      assert Layout(ws, gaps) == gaps[0] + (Write(ws[0]) + rest);
      TrimBlank(gaps[0], Write(ws[0]) + rest);
      TokenizeLayout(ws[1..], gaps[1..]);
    }
  }

  /** Quoted, with a space before all but the first. */
  function JoinQuoted(tokens: seq<string>): string {
    if tokens == [] then ""
    else if |tokens| == 1 then Quote(tokens[0])
    else Quote(tokens[0]) + " " + JoinQuoted(tokens[1..])
  }

  lemma TokenizeSkipsBlank(gap: string, s: string)
    requires Blank(gap)
    ensures Tokenize(gap + s) == Tokenize(s)
  {
    TrimBlank(gap, s);
  }

  /** Quoting each, joining by spaces and tokenizing returns the list. */
  lemma {:induction false} TokenizeQuoted(tokens: seq<string>)
    ensures Tokenize(JoinQuoted(tokens)) == tokens
  {
    hide Quote;
    if tokens != [] {
      var rest := if |tokens| == 1 then "" else " " + JoinQuoted(tokens[1..]);
      TokenOfWritten(InQuotes(tokens[0]), rest);
      assert JoinQuoted(tokens) == Quote(tokens[0]) + rest;
      TokenizeQuoted(tokens[1..]);
      if |tokens| > 1 { TokenizeSkipsBlank(" ", JoinQuoted(tokens[1..])); }
    }
  }

  /** So a command can be rewritten in quoted form without changing what it says. */
  lemma RequoteKeepsTokens(args: string)
    ensures Tokenize(JoinQuoted(Tokenize(args))) == Tokenize(args)
  {
    TokenizeQuoted(Tokenize(args));
  }

  // ----- What the tokens mean -----

  /** A float is kept as the text it is parsed from. */
  datatype PropertyValue = IntValue(i: I.I64) | FloatValue(text: string) | BoolValue(b: bool) | TextValue(s: string)

  /** `PARENT` is not a property but names the parent object. */
  datatype CreateParams = CreateParams(className: string, path: string, name: string, description: Option<string>,
                                       parentId: Option<string>, properties: map<string, PropertyValue>)

  datatype Pairs = Pairs(parentId: Option<string>, properties: map<string, PropertyValue>)

  predicate AllDigits(s: string) { forall i | 0 <= i < |s| :: I.IsDigit(s[i]) }

  function WithoutSign(s: string): string { if s != "" && (s[0] == '+' || s[0] == '-') then s[1..] else s }

  /** Digits with a point anywhere among them, or none. */
  predicate IsMantissa(s: string) {
    match T.Find(s, '.')
    case None => s != "" && AllDigits(s)
    case Some(point) => |s| > 1 && AllDigits(s[..point]) && AllDigits(s[point + 1..])
  }

  /** A mantissa, and behind an `e` the exponent, signed or not. */
  predicate IsNumberText(body: string) {
    match T.Find(body, 'e')
    case None => IsMantissa(body)
    case Some(e) =>
      var digits := WithoutSign(body[e + 1..]);
      IsMantissa(body[..e]) && digits != "" && AllDigits(digits)
  }

  /** What `str::parse::<f64>` takes. */
  predicate IsFloatText(s: string) {
    var body := T.Lower(WithoutSign(s));
    body == "inf" || body == "infinity" || body == "nan" || IsNumberText(body)
  }

  /** A sign, digits with a point before, among or behind them or without one, and an exponent with its own sign. */
  datatype FloatParts = FloatParts(sign: string, whole: string, point: string, fraction: string,
                                   exponent: Option<(string, string)>)

  predicate IsSign(s: string) { s == "" || s == "+" || s == "-" }

  predicate OnlyDigits(s: string) { forall c | c in s :: '0' <= c <= '9' }

  lemma OnlyDigitsIff(s: string)
    ensures OnlyDigits(s) <==> AllDigits(s)
  {
    if OnlyDigits(s) {
      forall i | 0 <= i < |s| ensures I.IsDigit(s[i]) { assert s[i] in s; }
    }
  }

  predicate GoodExponent(exponent: Option<(string, string)>) {
    exponent.Some? ==> IsSign(exponent.value.0) && OnlyDigits(exponent.value.1) && exponent.value.1 != ""
  }

  predicate GoodParts(p: FloatParts) {
    && IsSign(p.sign) && OnlyDigits(p.whole) && OnlyDigits(p.fraction) && p.whole + p.fraction != ""
    && (p.point == "." || (p.point == "" && p.fraction == ""))
    && GoodExponent(p.exponent)
  }

  function Mantissa(p: FloatParts): string { p.whole + p.point + p.fraction }

  function ExponentText(exponent: Option<(string, string)>): string {
    if exponent.Some? then "e" + (exponent.value.0 + exponent.value.1) else ""
  }

  lemma MantissaOfParts(p: FloatParts)
    requires GoodParts(p)
    ensures IsMantissa(Mantissa(p)) && 'e' !in Mantissa(p) && Mantissa(p) != ""
    ensures Mantissa(p)[0] != '+' && Mantissa(p)[0] != '-'
  {
    OnlyDigitsIff(p.whole);
    OnlyDigitsIff(p.fraction);
    var m := Mantissa(p);
    if p.point == "." {
      assert m[|p.whole|] == '.' && forall i | 0 <= i < |p.whole| :: m[i] == p.whole[i];
      assert m[..|p.whole|] == p.whole && m[|p.whole| + 1..] == p.fraction;
    } else {
      assert m == p.whole;
    }
  }

  lemma PartsOfMantissa(m: string) returns (p: FloatParts)
    requires IsMantissa(m)
    ensures GoodParts(p) && Mantissa(p) == m && p.sign == "" && p.exponent.None?
  {
    match T.Find(m, '.')
    case None =>
      OnlyDigitsIff(m);
      p := FloatParts("", m, "", "", None);
    case Some(point) =>
      OnlyDigitsIff(m[..point]);
      OnlyDigitsIff(m[point + 1..]);
      p := FloatParts("", m[..point], ".", m[point + 1..], None);
      assert m == m[..point] + "." + m[point + 1..];
  }

  lemma SignedDigits(sign: string, digits: string)
    requires IsSign(sign) && AllDigits(digits) && digits != ""
    ensures WithoutSign(sign + digits) == digits
  {
    if sign == "" { assert sign + digits == digits; } else { assert (sign + digits)[1..] == digits; }
  }

  lemma SplitSign(s: string) returns (sign: string)
    ensures IsSign(sign) && s == sign + WithoutSign(s)
  {
    sign := if s != "" && (s[0] == '+' || s[0] == '-') then [s[0]] else "";
  }

  lemma LowerWithoutSign(s: string)
    ensures T.Lower(WithoutSign(s)) == WithoutSign(T.Lower(s))
  {
  }

  lemma SignBefore(sign: string, body: string)
    requires IsSign(sign) && body != "" && body[0] != '+' && body[0] != '-'
    ensures WithoutSign(sign + body) == body
  {
    if sign == "" { assert sign + body == body; } else { assert (sign + body)[1..] == body; }
  }

  /** Infinity, and what is no number. */
  ghost predicate IsSpecial(text: string) {
    exists sign :: IsSign(sign) && (text == sign + "inf" || text == sign + "infinity" || text == sign + "nan")
  }

  lemma SpecialIff(text: string)
    ensures IsSpecial(text)
            <==> WithoutSign(text) == "inf" || WithoutSign(text) == "infinity" || WithoutSign(text) == "nan"
  {
    if sign :| IsSign(sign) && (text == sign + "inf" || text == sign + "infinity" || text == sign + "nan") {
      SignBefore(sign, text[|sign|..]);
      assert text == sign + text[|sign|..];
    }
    var mine := SplitSign(text);
  }

  lemma FindBehind(a: string, c: char, b: string)
    requires c !in a
    ensures var s := a + ([c] + b);
            T.Find(s, c) == Some(|a|) && s[..|a|] == a && s[|a| + 1..] == b
  {
    var s := a + ([c] + b);
    assert s[|a|] == c && forall i | 0 <= i < |a| :: s[i] == a[i];
  }

  lemma NumberRead(m: string, exponent: Option<(string, string)>)
    requires IsMantissa(m) && 'e' !in m && GoodExponent(exponent)
    ensures IsNumberText(m + ExponentText(exponent))
  {
    hide IsMantissa;
    match exponent
    case None => assert m + "" == m;
    case Some((sign, digits)) =>
      OnlyDigitsIff(digits);
      FindBehind(m, 'e', sign + digits);
      SignedDigits(sign, digits);
      assert m + ExponentText(exponent) == m + (['e'] + (sign + digits));
  }

  lemma PartsRead(p: FloatParts)
    requires GoodParts(p)
    ensures var body := Mantissa(p) + ExponentText(p.exponent);
            WithoutSign(p.sign + body) == body && IsNumberText(body)
  {
    MantissaOfParts(p);
    hide Mantissa, IsMantissa, IsNumberText, WithoutSign, ExponentText;
    NumberRead(Mantissa(p), p.exponent);
    SignBefore(p.sign, Mantissa(p) + ExponentText(p.exponent));
  }

  lemma WithExponent(m: FloatParts, text: string) returns (p: FloatParts)
    requires GoodParts(m) && WithoutSign(text) != "" && AllDigits(WithoutSign(text))
    ensures GoodParts(p) && p.sign == m.sign && Mantissa(p) == Mantissa(m) && ExponentText(p.exponent) == "e" + text
  {
    OnlyDigitsIff(WithoutSign(text));
    var sign := SplitSign(text);
    p := m.(exponent := Some((sign, WithoutSign(text))));
  }

  lemma NoExponent(m: string)
    ensures m + ExponentText(None) == m
  {
  }

  lemma CutAt(s: string, i: nat)
    requires i < |s|
    ensures s == s[..i] + ([s[i]] + s[i + 1..])
  {
  }

  lemma NumberParts(body: string) returns (p: FloatParts)
    requires IsNumberText(body)
    ensures GoodParts(p) && p.sign == "" && body == Mantissa(p) + ExponentText(p.exponent)
  {
    hide IsMantissa, Mantissa, GoodParts, WithoutSign, AllDigits, ExponentText;
    match T.Find(body, 'e')
    case None =>
      p := PartsOfMantissa(body);
      NoExponent(body);
    case Some(e) =>
      var m := PartsOfMantissa(body[..e]);
      p := WithExponent(m, body[e + 1..]);
      CutAt(body, e);
  }

  lemma FloatPartsOf(text: string) returns (p: FloatParts)
    requires IsNumberText(WithoutSign(text))
    ensures GoodParts(p) && text == p.sign + (Mantissa(p) + ExponentText(p.exponent))
  {
    hide IsNumberText, WithoutSign, ExponentText;
    var sign := SplitSign(text);
    var q := NumberParts(WithoutSign(text));
    p := q.(sign := sign);
  }

  /** Exactly the texts that are written so, in small or capital letters, are floats; beside infinity and what is no
      number, whose names may have a sign too. */
  lemma FloatTextIff(s: string)
    ensures IsFloatText(s)
            <==> || IsSpecial(T.Lower(s))
                 || exists p :: GoodParts(p) && T.Lower(s) == p.sign + (Mantissa(p) + ExponentText(p.exponent))
  {
    LowerWithoutSign(s);
    var text := T.Lower(s);
    hide T.Lower;
    if p :| GoodParts(p) && text == p.sign + (Mantissa(p) + ExponentText(p.exponent)) { PartsRead(p); }
    SpecialIff(text);
    if IsFloatText(s) && !IsSpecial(text) { var p := FloatPartsOf(text); }
  }

  /** An integer if it reads as one, else a float, else a boolean, else text. */
  function Typed(value: string): PropertyValue {
    match I.ParseSigned(value, I.TWO_63)
    case Some(i) =>
      I.SignedInRange(value, I.TWO_63);
      IntValue(i)
    case None =>
      if IsFloatText(value) then FloatValue(value)
      else if value == "true" then BoolValue(true)
      else if value == "false" then BoolValue(false)
      else TextValue(value)
  }

  lemma NotANumber(s: string)
    requires s == "true" || s == "false"
    ensures I.ParseSigned(s, I.TWO_63).None? && !IsFloatText(s)
  {
    if I.ParseDigits(s).Some? { I.AllDigits(s); }
    var body := T.Lower(WithoutSign(s));
    assert body == s;
    assert s[0] == 't' || s[0] == 'f';
    var e := T.Find(body, 'e').value;
    assert body[..e][0] == s[0] && !I.IsDigit(s[0]);
  }

  /** Integers and booleans come back as what they were printed from. */
  lemma TypedRoundTrip(i: I.I64, b: bool)
    ensures Typed(I.IntToString(i)) == IntValue(i)
    ensures Typed(if b then "true" else "false") == BoolValue(b)
  {
    I.ParseInt(i, I.TWO_63);
    NotANumber("true");
    NotANumber("false");
  }

  /** What the text of a value means: the whole of the rule by which values are typed. */
  ghost predicate Means(value: string, v: PropertyValue) {
    match v
    case IntValue(i) => I.ParseSigned(value, I.TWO_63) == Some(i)
    case FloatValue(text) => text == value && I.ParseSigned(value, I.TWO_63).None? && IsFloatText(value)
    case BoolValue(b) => value == if b then "true" else "false"
    case TextValue(s) =>
      s == value && I.ParseSigned(value, I.TWO_63).None? && !IsFloatText(value) && value != "true" && value != "false"
  }

  /** A value has one meaning, and is typed as that. */
  lemma TypedIff(value: string, v: PropertyValue)
    ensures Means(value, v) <==> v == Typed(value)
  {
    if value == "true" || value == "false" { NotANumber(value); }
    hide IsFloatText, I.ParseSigned;
  }

  const PARENT := "parent"

  /** One more `key=value` token; a token without an equals sign is passed over. */
  function AddPair(p: Pairs, token: string): Pairs {
    match T.Find(token, '=')
    case None => p
    case Some(eq) =>
      if token[..eq] == PARENT then p.(parentId := Some(token[eq + 1..]))
      else p.(properties := p.properties[token[..eq] := Typed(token[eq + 1..])])
  }

  function ReadPairs(tokens: seq<string>): Pairs {
    if tokens == [] then Pairs(None, map[]) else AddPair(ReadPairs(tokens[..|tokens| - 1]), tokens[|tokens| - 1])
  }

  function Interpret(tokens: seq<string>): Option<CreateParams> {
    if |tokens| < 3 then None
    else
      var described := |tokens| > 3 && '=' !in tokens[3];
      var pairs := ReadPairs(tokens[if described then 4 else 3..]);
      Some(CreateParams(tokens[0], tokens[1], tokens[2], if described then Some(tokens[3]) else None,
                        pairs.parentId, pairs.properties))
  }

  function ParseCreate(args: string): Option<CreateParams> { Interpret(Tokenize(args)) }

  datatype Entry = Entry(key: string, value: string)

  function PairTokens(entries: seq<Entry>): seq<string> {
    seq(|entries|, i requires 0 <= i < |entries| => entries[i].key + "=" + entries[i].value)
  }

  /** The last value given for the key. */
  function LastValue(entries: seq<Entry>, key: string): Option<string> {
    if entries == [] then None
    else if entries[|entries| - 1].key == key then Some(entries[|entries| - 1].value)
    else LastValue(entries[..|entries| - 1], key)
  }

  ghost predicate HoldsLast(p: Pairs, entries: seq<Entry>) {
    && p.parentId == LastValue(entries, "parent")
    && forall k :: if k == "parent" then k !in p.properties
                   else match LastValue(entries, k)
                        case None => k !in p.properties
                        case Some(value) => k in p.properties && Means(value, p.properties[k])
  }

  lemma AddEntry(p: Pairs, e: Entry)
    requires '=' !in e.key
    ensures AddPair(p, e.key + "=" + e.value)
         == if e.key == PARENT then p.(parentId := Some(e.value))
            else p.(properties := p.properties[e.key := Typed(e.value)])
    ensures Means(e.value, Typed(e.value))
  {
    TypedIff(e.value, Typed(e.value));
    hide Typed;
    var token := e.key + "=" + e.value;
    assert token[|e.key|] == '=' && forall i | 0 <= i < |e.key| :: token[i] == e.key[i];
    assert T.Find(token, '=') == Some(|e.key|);
    assert token[..|e.key|] == e.key && token[|e.key| + 1..] == e.value;
  }

  lemma PassedOver(p: Pairs, token: string)
    requires '=' !in token
    ensures AddPair(p, token) == p
  {
  }

  lemma SplitAtFirst(a: Entry, b: Entry)
    requires '=' !in a.key && '=' !in b.key && a.key + "=" + a.value == b.key + "=" + b.value
    ensures a == b
  {
    var text := a.key + "=" + a.value;
    assert text[|a.key|] == '=' && text[|b.key|] == '=';
    assert forall i | 0 <= i < |a.key| :: text[i] == a.key[i];
    assert forall i | 0 <= i < |b.key| :: text[i] == b.key[i];
    assert a.key == text[..|a.key|] && a.value == text[|a.key| + 1..];
    assert b.key == text[..|b.key|] && b.value == text[|b.key| + 1..];
  }

  lemma {:induction false} PairsHoldLast(entries: seq<Entry>)
    requires forall e | e in entries :: '=' !in e.key
    ensures HoldsLast(ReadPairs(PairTokens(entries)), entries)
  {
    hide AddPair, Typed, Means;
    if entries != [] {
      var front, last := entries[..|entries| - 1], entries[|entries| - 1];
      PairsHoldLast(front);
      var tokens := PairTokens(entries);
      assert tokens[..|tokens| - 1] == PairTokens(front);
      AddEntry(ReadPairs(PairTokens(front)), last);
    }
  }

  /** What a token gives: the texts before and behind its first equals sign, if it has one. */
  function EntryIn(token: string): (entries: seq<Entry>)
    ensures '=' !in token ==> entries == []
    ensures '=' in token ==>
              |entries| == 1 && '=' !in entries[0].key && entries[0].key + "=" + entries[0].value == token
  {
    match T.Find(token, '=')
    case None => []
    case Some(eq) => [Entry(token[..eq], token[eq + 1..])]
  }

  function EntriesIn(tokens: seq<string>): seq<Entry> {
    if tokens == [] then [] else EntriesIn(tokens[..|tokens| - 1]) + EntryIn(tokens[|tokens| - 1])
  }

  /** From any tokens: the last value of every key, and nothing from those without an equals sign. */
  lemma {:induction false} AnyPairsHoldLast(tokens: seq<string>)
    ensures HoldsLast(ReadPairs(tokens), EntriesIn(tokens))
  {
    hide AddPair, Typed, Means, EntryIn;
    if tokens != [] {
      var front, last := tokens[..|tokens| - 1], tokens[|tokens| - 1];
      AnyPairsHoldLast(front);
      var before, found := EntriesIn(front), EntryIn(last);
      if '=' in last {
        assert (before + found)[..|before + found| - 1] == before;
        AddEntry(ReadPairs(front), found[0]);
      } else {
        PassedOver(ReadPairs(front), last);
        assert before + found == before;
      }
    }
  }

  lemma EntryOfPair(e: Entry)
    requires '=' !in e.key
    ensures EntryIn(e.key + "=" + e.value) == [e]
  {
    var token := e.key + "=" + e.value;
    assert token[|e.key|] == '=';
    SplitAtFirst(EntryIn(token)[0], e);
  }

  lemma {:induction false} EntriesInConcat(a: seq<string>, b: seq<string>)
    ensures EntriesIn(a + b) == EntriesIn(a) + EntriesIn(b)
    decreases |b|
  {
    hide EntryIn;
    if b == [] {
      assert a + b == a;
    } else {
      assert (a + b)[..|a + b| - 1] == a + b[..|b| - 1];
      EntriesInConcat(a, b[..|b| - 1]);
    }
  }

  lemma EntriesInOne(token: string)
    ensures EntriesIn([token]) == EntryIn(token)
  {
    hide EntryIn;
    assert [token][..0] == [];
  }

  lemma OnePairMore(front: seq<Entry>, last: Entry)
    requires '=' !in last.key && EntriesIn(PairTokens(front)) == front
    ensures EntriesIn(PairTokens(front + [last])) == front + [last]
  {
    hide EntriesIn, EntryIn;
    var token := last.key + "=" + last.value;
    assert PairTokens(front + [last]) == PairTokens(front) + [token];
    EntriesInConcat(PairTokens(front), [token]);
    EntriesInOne(token);
    EntryOfPair(last);
  }

  lemma {:induction false} EntriesInPairTokens(entries: seq<Entry>)
    requires forall e | e in entries :: '=' !in e.key
    ensures EntriesIn(PairTokens(entries)) == entries
    decreases |entries|
  {
    if entries != [] {
      var front, last := entries[..|entries| - 1], entries[|entries| - 1];
      assert entries == front + [last];
      EntriesInPairTokens(front);
      OnePairMore(front, last);
    }
  }

  /** What every input comes to: too few tokens are refused; a fourth one is the description unless it has an equals
      sign; the tokens with one give the last value of every key, and the rest are passed over. */
  lemma ParseCreateIff(args: string)
    ensures var tokens, r := Tokenize(args), ParseCreate(args);
            && (r.None? <==> |tokens| < 3)
            && (r.Some? ==>
                  var described := |tokens| > 3 && '=' !in tokens[3];
                  && r.value.className == tokens[0] && r.value.path == tokens[1] && r.value.name == tokens[2]
                  && r.value.description == (if described then Some(tokens[3]) else None)
                  && HoldsLast(Pairs(r.value.parentId, r.value.properties),
                               EntriesIn(tokens[if described then 4 else 3..])))
  {
    hide Tokenize, HoldsLast, EntriesIn;
    var tokens := Tokenize(args);
    if |tokens| >= 3 { AnyPairsHoldLast(tokens[if |tokens| > 3 && '=' !in tokens[3] then 4 else 3..]); }
  }

  function Arguments(className: string, path: string, name: string, description: Option<string>, entries: seq<Entry>)
    : seq<string>
  {
    [className, path, name] + (if description.Some? then [description.value] else []) + PairTokens(entries)
  }

  lemma ArgumentsTail(className: string, path: string, name: string, description: Option<string>, entries: seq<Entry>)
    ensures var tokens := Arguments(className, path, name, description, entries);
            && |tokens| >= 3 && tokens[0] == className && tokens[1] == path && tokens[2] == name
            && (description.Some? ==> |tokens| > 3 && tokens[3] == description.value
                                      && tokens[4..] == PairTokens(entries)
                                      && tokens[3..] == [description.value] + PairTokens(entries))
            && (description.None? ==> tokens[3..] == PairTokens(entries) && (|tokens| > 3 ==> '=' in tokens[3]))
  {
    var tokens := Arguments(className, path, name, description, entries);
    if description.None? && entries != [] { assert tokens[3][|entries[0].key|] == '='; }
  }

  /** Every request can be written down: class, path, name and the last value of every key, typed, come back.
      The description does exactly when it holds no equals sign; otherwise it is read as one more entry. */
  lemma CreateRoundTripIff(className: string, path: string, name: string, description: Option<string>,
                           entries: seq<Entry>)
    requires forall e | e in entries :: '=' !in e.key
    ensures var r := ParseCreate(JoinQuoted(Arguments(className, path, name, description, entries)));
            && r.Some? && r.value.className == className && r.value.path == path && r.value.name == name
            && (r.value.description == description <==> description.None? || '=' !in description.value)
            && (r.value.description == description ==>
                  HoldsLast(Pairs(r.value.parentId, r.value.properties), entries))
            && (r.value.description != description ==>
                  && r.value.description == None
                  && HoldsLast(Pairs(r.value.parentId, r.value.properties), EntryIn(description.value) + entries))
  {
    hide HoldsLast, ReadPairs, EntriesIn, EntryIn, PairTokens, JoinQuoted, Tokenize, Arguments;
    var tokens := Arguments(className, path, name, description, entries);
    TokenizeQuoted(tokens);
    ArgumentsTail(className, path, name, description, entries);
    if description.Some? && '=' in description.value {
      AnyPairsHoldLast(tokens[3..]);
      EntriesInConcat([description.value], PairTokens(entries));
      EntriesInOne(description.value);
      EntriesInPairTokens(entries);
    } else {
      PairsHoldLast(entries);
    }
  }

  // ----- The parser itself -----

  lemma TrimOne(s: string)
    requires s != ""
    ensures T.IsWhitespace(s[0]) ==> T.TrimStart(s) == T.TrimStart(s[1..])
    ensures !T.IsWhitespace(s[0]) ==> T.TrimStart(s) == s
  {
  }

  method SkipWhitespace(chars: string, start: nat) returns (pos: nat)
    requires start <= |chars|
    ensures start <= pos <= |chars| && chars[pos..] == T.TrimStart(chars[start..])
  {
    pos := start;
    while pos < |chars| && T.IsWhitespace(chars[pos])
      invariant start <= pos <= |chars|
      invariant T.TrimStart(chars[pos..]) == T.TrimStart(chars[start..])
    {
      TrimOne(chars[pos..]);
      assert chars[pos..][1..] == chars[pos + 1..];
      pos := pos + 1;
    }
    if pos < |chars| { TrimOne(chars[pos..]); }
  }

  lemma QuotedNext(chars: string, pos: nat)
    requires pos < |chars|
    ensures chars[pos] == '"' ==> Quoted(chars[pos..]) == ("", chars[pos + 1..])
    ensures chars[pos] == '\\' && pos + 1 < |chars| ==>
              Quoted(chars[pos..]) == ([chars[pos + 1]] + Quoted(chars[pos + 2..]).0, Quoted(chars[pos + 2..]).1)
    ensures chars[pos] == '\\' && pos + 1 == |chars| ==> Quoted(chars[pos..]) == ("", "")
    ensures chars[pos] != '"' && chars[pos] != '\\' ==>
              Quoted(chars[pos..]) == ([chars[pos]] + Quoted(chars[pos + 1..]).0, Quoted(chars[pos + 1..]).1)
  {
    assert chars[pos..][1..] == chars[pos + 1..];
    if pos + 1 < |chars| { assert chars[pos..][2..] == chars[pos + 2..]; }
  }

  lemma QuotedEnd()
    ensures Quoted("") == ("", "")
  {
  }

  method ReadQuoted(chars: string, start: nat) returns (text: string, pos: nat)
    requires start <= |chars|
    ensures start <= pos <= |chars| && text == Quoted(chars[start..]).0 && chars[pos..] == Quoted(chars[start..]).1
  {
    hide Quoted;
    QuotedEnd();
    assert chars[|chars|..] == "";
    pos := start;
    text := "";
    while pos < |chars|
      invariant start <= pos <= |chars|
      invariant Quoted(chars[start..]).0 == text + Quoted(chars[pos..]).0
      invariant Quoted(chars[start..]).1 == Quoted(chars[pos..]).1
    {
      var c := chars[pos];
      QuotedNext(chars, pos);
      if c == '"' {
        pos := pos + 1;
        return;
      }
      if c == '\\' {
        pos := pos + 1;
        if pos < |chars| {
          text := text + [chars[pos]];
          pos := pos + 1;
        }
      } else {
        text := text + [c];
        pos := pos + 1;
      }
    }
  }

  method ReadWord(chars: string, start: nat) returns (word: string, pos: nat)
    requires start <= |chars|
    ensures start <= pos <= |chars| && word == Word(chars[start..]).0 && chars[pos..] == Word(chars[start..]).1
  {
    pos := start;
    word := "";
    while pos < |chars|
      invariant start <= pos <= |chars|
      invariant Word(chars[start..]).0 == word + Word(chars[pos..]).0
      invariant Word(chars[start..]).1 == Word(chars[pos..]).1
    {
      var c := chars[pos];
      if T.IsWhitespace(c) {
        break;
      }
      assert chars[pos..][1..] == chars[pos + 1..];
      word := word + [c];
      pos := pos + 1;
    }
  }

  lemma TokenizeNext(s: string)
    ensures var r := T.TrimStart(s);
            if r == "" then Tokenize(s) == []
            else !T.IsWhitespace(r[0]) && Tokenize(s) == [Token(r).0] + Tokenize(Token(r).1)
  {
    TrimStartShrinks(s);
  }

  lemma TokenizeEmpty()
    ensures Tokenize("") == []
  {
  }

  /** Every round consumes a character, so the loop ends on every input. */
  method TokenizeArgs(chars: string) returns (tokens: seq<string>)
    ensures tokens == Tokenize(chars)
  {
    hide Quoted, Word, T.TrimStart, Tokenize;
    tokens := [];
    var pos := 0;
    assert chars[0..] == chars;
    TokenizeEmpty();
    while pos < |chars|
      invariant 0 <= pos <= |chars|
      invariant Tokenize(chars) == tokens + Tokenize(chars[pos..])
      decreases |chars| - pos
    {
      TokenizeNext(chars[pos..]);
      ghost var before := chars[pos..];
      pos := SkipWhitespace(chars, pos);
      if pos == |chars| {
        assert tokens + [] == tokens;
        return;
      }
      var token;
      if chars[pos] == '"' {
        assert chars[pos..][1..] == chars[pos + 1..];
        token, pos := ReadQuoted(chars, pos + 1);
      } else {
        token, pos := ReadWord(chars, pos);
      }
      assert Tokenize(before) == [token] + Tokenize(chars[pos..]);
      assert tokens + ([token] + Tokenize(chars[pos..])) == tokens + [token] + Tokenize(chars[pos..]);
      tokens := tokens + [token];
    }
    assert chars[pos..] == "" && tokens + [] == tokens;
  }

  method ParseCreateArgs(args: string) returns (params: Option<CreateParams>)
    ensures params == ParseCreate(args)
  {
    hide Tokenize, T.Find, Typed;
    var tokens := TokenizeArgs(args);
    if |tokens| < 3 {
      return None;
    }
    var description := None;
    var idx := 3;
    if idx < |tokens| && '=' !in tokens[idx] {
      description := Some(tokens[idx]);
      idx := idx + 1;
    }
    ghost var first := idx;
    var parentId: Option<string> := None;
    var properties: map<string, PropertyValue> := map[];
    while idx < |tokens|
      invariant first <= idx <= |tokens|
      invariant Pairs(parentId, properties) == ReadPairs(tokens[first..idx])
    {
      assert tokens[first..idx + 1][..idx - first] == tokens[first..idx];
      var token := tokens[idx];
      var eq := T.Find(token, '=');
      if eq.Some? {
        var key, value := token[..eq.value], token[eq.value + 1..];
        if key == PARENT {
          parentId := Some(value);
        } else {
          properties := properties[key := Typed(value)];
        }
      }
      idx := idx + 1;
    }
    assert tokens[first..idx] == tokens[first..];
    return Some(CreateParams(tokens[0], tokens[1], tokens[2], description, parentId, properties));
  }
}
