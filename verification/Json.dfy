/** dojo.toJson: the printer with its indented mode, and the escaping of strings. */
module Json {
  import opened Strings
  import opened Wrappers

  // ------------------------------------------- strings

  const FORM_FEED := '\U{000C}'
  const BACKSPACE := '\U{0008}'

  /** str.replace(/["\\]/g, '\\$1') */
  function EscapeQuotes(s: string): string {
    if s == "" then ""
    else (if s[0] == '\"' || s[0] == '\\' then ['\\', s[0]] else [s[0]]) + EscapeQuotes(s[1..])
  }

  /** One further pass: every `from` becomes a backslash and the letter `to`. */
  function Pass(s: string, from: char, to: char): string {
    if s == "" then "" else PassChar(s[0], from, to) + Pass(s[1..], from, to)
  }

  function PassChar(c: char, from: char, to: char): string {
    if c == from then ['\\', to] else [c]
  }

  function ControlPasses(s: string): string {
    var s := Pass(s, FORM_FEED, 'f');
    var s := Pass(s, BACKSPACE, 'b');
    var s := Pass(s, '\n', 'n');
    var s := Pass(s, '\t', 't');
    Pass(s, '\r', 'r')
  }

  function EscapeString(s: string): string {
    ControlPasses("\"" + EscapeQuotes(s) + "\"")
  }

  /** What the passes together make of one character. */
  function EscapeChar(c: char): string {
    if c == '\"' || c == '\\' then ['\\', c]
    else if c == FORM_FEED then "\\f"
    else if c == BACKSPACE then "\\b"
    else if c == '\n' then "\\n"
    else if c == '\t' then "\\t"
    else if c == '\r' then "\\r"
    else [c]
  }

  function EscapeEach(s: string): string {
    if s == "" then "" else EscapeChar(s[0]) + EscapeEach(s[1..])
  }

  lemma PassFirst(c: char, s: string, from: char, to: char)
    ensures Pass([c] + s, from, to) == PassChar(c, from, to) + Pass(s, from, to)
  {
    assert ([c] + s)[1..] == s;
  }

  lemma Associative(a: string, b: string, c: string)
    ensures a + (b + c) == a + b + c
  {
  }

  lemma HeadAndTail(a: string, b: string)
    requires a != ""
    ensures a == [a[0]] + a[1..] && a + b == [a[0]] + (a[1..] + b)
  {
  }

  lemma {:induction false} PassConcat(a: string, b: string, from: char, to: char)
    ensures Pass(a + b, from, to) == Pass(a, from, to) + Pass(b, from, to)
  {
    if a == "" {
      assert a + b == b;
    } else {
      hide Pass, PassChar;
      HeadAndTail(a, b);
      PassFirst(a[0], a[1..], from, to);
      PassFirst(a[0], a[1..] + b, from, to);
      PassConcat(a[1..], b, from, to);
      Associative(PassChar(a[0], from, to), Pass(a[1..], from, to), Pass(b, from, to));
    }
  }

  lemma PassesConcat(a: string, b: string)
    ensures ControlPasses(a + b) == ControlPasses(a) + ControlPasses(b)
  {
    hide Pass;
    PassConcat(a, b, FORM_FEED, 'f');
    var a1, b1 := Pass(a, FORM_FEED, 'f'), Pass(b, FORM_FEED, 'f');
    PassConcat(a1, b1, BACKSPACE, 'b');
    var a2, b2 := Pass(a1, BACKSPACE, 'b'), Pass(b1, BACKSPACE, 'b');
    PassConcat(a2, b2, '\n', 'n');
    var a3, b3 := Pass(a2, '\n', 'n'), Pass(b2, '\n', 'n');
    PassConcat(a3, b3, '\t', 't');
    PassConcat(Pass(a3, '\t', 't'), Pass(b3, '\t', 't'), '\r', 'r');
  }

  lemma PassOne(c: char, from: char, to: char)
    ensures Pass([c], from, to) == if c == from then ['\\', to] else [c]
  {
    assert Pass([c][1..], from, to) == "";
  }

  lemma PassTwo(c: char, d: char, from: char, to: char)
    requires c != from && d != from
    ensures Pass([c, d], from, to) == [c, d]
  {
    assert [c, d][1..] == [d];
    PassOne(d, from, to);
  }

  /** A pass does not touch a pair of characters that an earlier pass has made, or a quote. */
  lemma PassesKeep(c: char, d: char)
    requires c == '\\' && d !in {FORM_FEED, BACKSPACE, '\n', '\t', '\r'}
    ensures ControlPasses([c, d]) == [c, d]
  {
    hide Pass;
    PassTwo(c, d, FORM_FEED, 'f');
    PassTwo(c, d, BACKSPACE, 'b');
    PassTwo(c, d, '\n', 'n');
    PassTwo(c, d, '\t', 't');
    PassTwo(c, d, '\r', 'r');
  }

  lemma PassesOne(c: char)
    ensures ControlPasses([c]) == if c == '\"' || c == '\\' then [c] else EscapeChar(c)
  {
    hide Pass;
    PassOne(c, FORM_FEED, 'f');
    PassOne(c, BACKSPACE, 'b');
    PassOne(c, '\n', 'n');
    PassOne(c, '\t', 't');
    PassOne(c, '\r', 'r');
    if c == FORM_FEED {
      PassTwo('\\', 'f', BACKSPACE, 'b');
      PassTwo('\\', 'f', '\n', 'n');
      PassTwo('\\', 'f', '\t', 't');
      PassTwo('\\', 'f', '\r', 'r');
    } else if c == BACKSPACE {
      PassTwo('\\', 'b', '\n', 'n');
      PassTwo('\\', 'b', '\t', 't');
      PassTwo('\\', 'b', '\r', 'r');
    } else if c == '\n' {
      PassTwo('\\', 'n', '\t', 't');
      PassTwo('\\', 'n', '\r', 'r');
    } else if c == '\t' {
      PassTwo('\\', 't', '\r', 'r');
    }
  }

  lemma {:induction false} PassesAreEscapes(s: string)
    ensures ControlPasses(EscapeQuotes(s)) == EscapeEach(s)
  {
    if s != "" {
      hide ControlPasses;
      var first := if s[0] == '\"' || s[0] == '\\' then ['\\', s[0]] else [s[0]];
      PassesConcat(first, EscapeQuotes(s[1..]));
      PassesAreEscapes(s[1..]);
      if s[0] == '\"' || s[0] == '\\' {
        PassesKeep('\\', s[0]);
      } else {
        PassesOne(s[0]);
      }
    } else {
      NoPasses();
    }
  }

  lemma NoPasses()
    ensures ControlPasses("") == ""
  {
  }

  /** The six passes amount to one replacement per character, between two quotes. */
  lemma EscapeStringIs(s: string)
    ensures EscapeString(s) == "\"" + EscapeEach(s) + "\""
  {
    hide ControlPasses;
    PassesConcat("\"" + EscapeQuotes(s), "\"");
    PassesConcat("\"", EscapeQuotes(s));
    PassesOne('\"');
    PassesAreEscapes(s);
  }

  // ------------------------------------------- reading a literal back

  /** The character an escape sequence stands for. */
  function Unescaped(c: char): char {
    if c == 'f' then FORM_FEED
    else if c == 'b' then BACKSPACE
    else if c == 'n' then '\n'
    else if c == 't' then '\t'
    else if c == 'r' then '\r'
    else c
  }

  /** The two line terminators that the escaping leaves as they are. */
  predicate Separator(c: char) {
    c == '\U{2028}' || c == '\U{2029}'
  }

  predicate LineTerminator(c: char) {
    c == '\n' || c == '\r' || Separator(c)
  }

  /** Read string characters up to the closing quote: the string and what follows the quote.
      No line terminator may stand in a literal. */
  function ReadString(text: string): Option<(string, string)>
    decreases |text|
  {
    if text == "" || LineTerminator(text[0]) then None
    else if text[0] == '\"' then Some(("", text[1..]))
    else if text[0] != '\\' then Then(text[0], ReadString(text[1..]))
    else if |text| == 1 || LineTerminator(text[1]) then None
    else Then(Unescaped(text[1]), ReadString(text[2..]))
  }

  function Then(c: char, r: Option<(string, string)>): Option<(string, string)> {
    match r
    case None => None
    case Some((s, rest)) => Some(([c] + s, rest))
  }

  /** A reading, and the text behind it. */
  function With<T>(r: Option<T>, rest: string): Option<(T, string)> {
    match r
    case None => None
    case Some(v) => Some((v, rest))
  }

  predicate Plain(s: string) {
    forall i :: 0 <= i < |s| ==> !Separator(s[i])
  }

  function ReadableString(s: string): Option<string> {
    if Plain(s) then Some(s) else None
  }

  lemma PlainFirst(s: string)
    requires s != ""
    ensures Plain(s) <==> !Separator(s[0]) && Plain(s[1..])
  {
    assert s == [s[0]] + s[1..];
  }

  /** A string literal reads back as the string, wherever it stands, exactly if no separator
      is in the string: no quote inside ends it. */
  lemma {:induction false} LiteralReadsBack(s: string, rest: string)
    ensures ReadString(EscapeEach(s) + "\"" + rest) == With(ReadableString(s), rest)
  {
    if s == "" {
      assert ("" + "\"" + rest)[1..] == rest;
    } else {
      hide ReadString, Plain;
      LiteralReadsBack(s[1..], rest);
      var tail := EscapeEach(s[1..]) + "\"" + rest;
      var e := EscapeChar(s[0]);
      assert EscapeEach(s) + "\"" + rest == e + tail;
      ReadsOne(s[0], tail);
      PlainFirst(s);
      assert s == [s[0]] + s[1..];
    }
  }

  lemma ReadsOne(c: char, tail: string)
    ensures ReadString(EscapeChar(c) + tail) == if Separator(c) then None else Then(c, ReadString(tail))
  {
    var text := EscapeChar(c) + tail;
    if |EscapeChar(c)| == 1 {
      assert text[0] == c && text[1..] == tail;
    } else {
      assert text[0] == '\\' && Unescaped(text[1]) == c && text[2..] == tail;
    }
  }

  // ------------------------------------------- values

  predicate White(c: char) {
    c == ' ' || c == '\t' || c == '\n' || c == '\r'
  }

  predicate Blank(s: string) {
    forall i :: 0 <= i < |s| ==> White(s[i])
  }

  predicate Bare(s: string) {
    forall i :: 0 <= i < |s| ==> !White(s[i]) && s[i] != '\"'
  }

  predicate Punctuation(c: char) {
    c == ',' || c == ':' || c == '[' || c == ']' || c == '{' || c == '}'
  }

  /** The text of a number: no layout, no quote, no punctuation, none of the other words. */
  predicate IsNumberText(s: string) {
    && s != "" && Bare(s) && (forall i :: 0 <= i < |s| ==> !Punctuation(s[i]))
    && s != "undefined" && s != "null" && s != "true" && s != "false"
  }

  type NumberText = s: string | IsNumberText(s) witness "0"

  datatype Field = Field(key: string, value: Value)

  /** What the printer is given. Numbers are carried as the text JavaScript prints for them. */
  datatype Value =
    | Undefined
    | Null
    | Boolean(b: bool)
    | Number(text: NumberText)
    | String(s: string)
    | Function
    | Array(items: seq<Value>)
    | Object(fields: seq<Field>)

  function Space(pretty: bool): string {
    if pretty then " " else ""
  }

  function NewLine(pretty: bool): string {
    if pretty then "\n" else ""
  }

  function Bracketed(pretty: bool, left: string, parts: seq<string>, indent: string, right: string): string {
    left + Join(parts, "," + Space(pretty)) + NewLine(pretty) + indent + right
  }

  /** dojo.toJson; None stands for the null it returns for a function. `unit` is
      dojo.toJsonIndentStr, `indent` the indentation of the enclosing value. */
  function ToJson(v: Value, pretty: bool, unit: string, indent: string): (r: Option<string>)
    ensures r.None? <==> v.Function?
    decreases v, 1
  {
    var next := if pretty then indent + unit else "";
    match v
    case Undefined => Some("undefined")
    case Number(text) => Some(text)
    case Boolean(b) => Some(if b then "true" else "false")
    case Null => Some("null")
    case String(s) => Some(EscapeString(s))
    case Function => None
    case Array(items) => Some(Bracketed(pretty, "[", ItemTexts(items, pretty, unit, next), indent, "]"))
    case Object(fields) => Some(Bracketed(pretty, "{", FieldTexts(fields, pretty, unit, next), indent, "}"))
  }

  /** The items of an array; what cannot be printed appears as undefined. */
  function ItemTexts(items: seq<Value>, pretty: bool, unit: string, next: string): (r: seq<string>)
    ensures |r| == |items|
    decreases items, 0
  {
    if items == [] then []
    else
      var text := ToJson(items[0], pretty, unit, next);
      [NewLine(pretty) + next + if text.Some? then text.value else "undefined"] +
      ItemTexts(items[1..], pretty, unit, next)
  }

  /** The fields of an object; what cannot be printed is skipped. */
  function FieldTexts(fields: seq<Field>, pretty: bool, unit: string, next: string): seq<string>
    decreases fields, 0
  {
    if fields == [] then []
    else
      var text := ToJson(fields[0].value, pretty, unit, next);
      var rest := FieldTexts(fields[1..], pretty, unit, next);
      if text.Some? then
        [NewLine(pretty) + next + EscapeString(fields[0].key) + ":" + Space(pretty) + text.value] + rest
      else rest
  }

  // ------------------------------------------- layout

  /** Where a reader of the text is: between literals, in one, or after a backslash in one. */
  datatype Mode = Outside | Inside | Escaped

  function Next(m: Mode, c: char): Mode {
    match m
    case Outside => if c == '\"' then Inside else Outside
    case Inside => if c == '\\' then Escaped else if c == '\"' then Outside else Inside
    case Escaped => Inside
  }

  function ModeAfter(text: string, m: Mode): Mode {
    if text == "" then m else ModeAfter(text[1..], Next(m, text[0]))
  }

  /** The text without the white space outside its string literals. */
  function Strip(text: string, m: Mode): string
    decreases |text|
  {
    if text == "" then ""
    else Kept(m, text[0]) + Strip(text[1..], Next(m, text[0]))
  }

  function Kept(m: Mode, c: char): string {
    if m.Outside? && White(c) then "" else [c]
  }

  lemma StripFirst(c: char, text: string, m: Mode)
    ensures Strip([c] + text, m) == Kept(m, c) + Strip(text, Next(m, c))
    ensures ModeAfter([c] + text, m) == ModeAfter(text, Next(m, c))
  {
    assert ([c] + text)[1..] == text;
  }

  lemma {:induction false} StripConcat(a: string, b: string, m: Mode)
    ensures Strip(a + b, m) == Strip(a, m) + Strip(b, ModeAfter(a, m))
    ensures ModeAfter(a + b, m) == ModeAfter(b, ModeAfter(a, m))
    decreases |a|
  {
    if a == "" {
      assert a + b == b;
    } else {
      hide Strip, Kept, ModeAfter, Next;
      HeadAndTail(a, b);
      StripFirst(a[0], a[1..], m);
      StripFirst(a[0], a[1..] + b, m);
      StripConcat(a[1..], b, Next(m, a[0]));
    }
  }

  /** `text`, starting and ending outside literals, is `compact` with layout added. */
  ghost predicate Lays(text: string, compact: string) {
    Strip(text, Outside) == compact && ModeAfter(text, Outside) == Outside
  }

  lemma LaysConcat(a: string, a': string, b: string, b': string)
    requires Lays(a, a') && Lays(b, b')
    ensures Lays(a + b, a' + b')
  {
    StripConcat(a, b, Outside);
  }

  lemma {:induction false} LaysBlank(s: string)
    requires Blank(s)
    ensures Lays(s, "")
  {
    if s != "" {
      LaysBlank(s[1..]);
    }
  }

  lemma {:induction false} LaysBare(s: string)
    requires Bare(s)
    ensures Lays(s, s)
  {
    if s != "" {
      LaysBare(s[1..]);
    }
  }

  lemma {:induction false} InsideLiteral(s: string)
    ensures Strip(EscapeEach(s), Inside) == EscapeEach(s)
    ensures ModeAfter(EscapeEach(s), Inside) == Inside
  {
    if s != "" {
      InsideLiteral(s[1..]);
      StripConcat(EscapeChar(s[0]), EscapeEach(s[1..]), Inside);
      InsideOne(s[0]);
    }
  }

  lemma InsideOne(c: char)
    ensures Strip(EscapeChar(c), Inside) == EscapeChar(c)
    ensures ModeAfter(EscapeChar(c), Inside) == Inside
  {
    var e := EscapeChar(c);
    if |e| == 2 {
      assert e == ['\\'] + [e[1]] && [e[1]] == [e[1]] + "";
      StripFirst('\\', [e[1]], Inside);
      StripFirst(e[1], "", Escaped);
    } else {
      assert e == [c] + "";
      StripFirst(c, "", Inside);
    }
  }

  /** A literal is one block of text: no quote in it is bare, and its blanks stay. */
  lemma LaysLiteral(s: string)
    ensures Lays(EscapeString(s), EscapeString(s))
  {
    var e := EscapeEach(s);
    EscapeStringIs(s);
    InsideLiteral(s);
    StripConcat("\"" + e, "\"", Outside);
    StripConcat("\"", e, Outside);
    Quotes();
  }

  lemma Quotes()
    ensures Strip("\"", Outside) == "\"" && ModeAfter("\"", Outside) == Inside
    ensures Strip("\"", Inside) == "\"" && ModeAfter("\"", Inside) == Outside
  {
    assert "\""[1..] == "";
  }

  ghost predicate AllLay(texts: seq<string>, compacts: seq<string>) {
    |texts| == |compacts| && forall i :: 0 <= i < |texts| ==> Lays(texts[i], compacts[i])
  }

  lemma {:induction false} LaysJoin(texts: seq<string>, compacts: seq<string>, sep: string, sep': string)
    requires AllLay(texts, compacts) && Lays(sep, sep')
    ensures Lays(Join(texts, sep), Join(compacts, sep'))
    decreases |texts|
  {
    hide Lays;
    if texts == [] {
      LaysBare("");
    } else if |texts| > 1 {
      LaysJoin(texts[1..], compacts[1..], sep, sep');
      LaysConcat(texts[0], compacts[0], sep, sep');
      LaysConcat(texts[0] + sep, compacts[0] + sep', Join(texts[1..], sep), Join(compacts[1..], sep'));
    }
  }

  lemma LaysSpace()
    ensures Lays(Space(true), Space(false)) && Lays(NewLine(true), NewLine(false))
  {
    LaysBlank(" ");
    LaysBlank("\n");
  }

  /** Brackets around joined parts. */
  lemma LaysBracketed(left: string, texts: seq<string>, compacts: seq<string>, indent: string, right: string)
    requires AllLay(texts, compacts) && Bare(left) && Bare(right) && Blank(indent)
    ensures Lays(Bracketed(true, left, texts, indent, right), Bracketed(false, left, compacts, "", right))
  {
    hide Lays, Join, Space, NewLine, AllLay;
    var sep, sep' := "," + Space(true), "," + Space(false);
    LaysSpace();
    LaysBare(",");
    LaysConcat(",", ",", Space(true), Space(false));
    LaysJoin(texts, compacts, sep, sep');
    LaysBare(left);
    LaysConcat(left, left, Join(texts, sep), Join(compacts, sep'));
    var a, a' := left + Join(texts, sep), left + Join(compacts, sep');
    LaysConcat(a, a', NewLine(true), NewLine(false));
    LaysBlank(indent);
    LaysConcat(a + NewLine(true), a' + NewLine(false), indent, "");
    LaysBare(right);
    LaysConcat(a + NewLine(true) + indent, a' + NewLine(false) + "", right, right);
  }

  /** Pretty printing adds white space between tokens and changes nothing else. */
  lemma {:induction false} PrettyLays(v: Value, unit: string, indent: string)
    requires Blank(unit) && Blank(indent)
    ensures var pretty, compact := ToJson(v, true, unit, indent), ToJson(v, false, unit, "");
            pretty.Some? == compact.Some? && (pretty.Some? ==> Lays(pretty.value, compact.value))
    decreases v, 1
  {
    hide Lays, Bracketed, EscapeString, AllLay;
    match v
    case Undefined => LaysBare("undefined");
    case Number(text) => LaysBare(text);
    case Boolean(b) => LaysBare(if b then "true" else "false");
    case Null => LaysBare("null");
    case String(s) => LaysLiteral(s);
    case Function =>
    case Array(items) =>
      ItemsLay(items, unit, indent + unit);
      LaysBracketed("[", ItemTexts(items, true, unit, indent + unit), ItemTexts(items, false, unit, ""), indent, "]");
    case Object(fields) =>
      FieldsLay(fields, unit, indent + unit);
      LaysBracketed("{", FieldTexts(fields, true, unit, indent + unit), FieldTexts(fields, false, unit, ""), indent, "}");
  }

  lemma {:induction false} ItemsLay(items: seq<Value>, unit: string, next: string)
    requires Blank(unit) && Blank(next)
    ensures AllLay(ItemTexts(items, true, unit, next), ItemTexts(items, false, unit, ""))
    decreases items, 0
  {
    hide Lays, Space, NewLine;
    if items != [] {
      PrettyLays(items[0], unit, next);
      ItemsLay(items[1..], unit, next);
      LaysBare("undefined");
      LaysLead(next);
      var text, compact := ToJson(items[0], true, unit, next), ToJson(items[0], false, unit, "");
      LaysConcat(NewLine(true) + next, NewLine(false) + "", if text.Some? then text.value else "undefined",
                 if compact.Some? then compact.value else "undefined");
    }
  }

  lemma LaysLead(next: string)
    requires Blank(next)
    ensures Lays(NewLine(true) + next, NewLine(false) + "")
  {
    hide Lays, NewLine;
    LaysSpace();
    LaysBlank(next);
    LaysConcat(NewLine(true), NewLine(false), next, "");
  }

  lemma LaysField(key: string, text: string, compact: string, next: string)
    requires Blank(next) && Lays(text, compact)
    ensures Lays(NewLine(true) + next + EscapeString(key) + ":" + Space(true) + text,
                 NewLine(false) + "" + EscapeString(key) + ":" + Space(false) + compact)
  {
    hide Lays, Space, NewLine, EscapeString;
    var a, a' := NewLine(true) + next, NewLine(false) + "";
    LaysLead(next);
    LaysLiteral(key);
    LaysConcat(a, a', EscapeString(key), EscapeString(key));
    a, a' := a + EscapeString(key), a' + EscapeString(key);
    LaysBare(":");
    LaysConcat(a, a', ":", ":");
    LaysSpace();
    LaysConcat(a + ":", a' + ":", Space(true), Space(false));
    LaysConcat(a + ":" + Space(true), a' + ":" + Space(false), text, compact);
  }

  lemma {:induction false} FieldsLay(fields: seq<Field>, unit: string, next: string)
    requires Blank(unit) && Blank(next)
    ensures AllLay(FieldTexts(fields, true, unit, next), FieldTexts(fields, false, unit, ""))
    decreases fields, 0
  {
    hide Lays, EscapeString, Space, NewLine;
    if fields != [] {
      PrettyLays(fields[0].value, unit, next);
      FieldsLay(fields[1..], unit, next);
      var text, compact := ToJson(fields[0].value, true, unit, next), ToJson(fields[0].value, false, unit, "");
      if text.Some? {
        LaysField(fields[0].key, text.value, compact.value, next);
      }
    }
  }

  // ------------------------------------------- reading values back

  /** What a printed value can tell: functions are gone from objects and undefined in arrays. */
  function Seen(v: Value): Value
    decreases v, 1
  {
    match v
    case Array(items) => Array(SeenItems(items))
    case Object(fields) => Object(SeenFields(fields))
    case _ => v
  }

  function SeenItems(items: seq<Value>): seq<Value>
    decreases items, 0
  {
    if items == [] then []
    else [if items[0].Function? then Undefined else Seen(items[0])] + SeenItems(items[1..])
  }

  function SeenFields(fields: seq<Field>): seq<Field>
    decreases fields, 0
  {
    if fields == [] then []
    else if fields[0].value.Function? then SeenFields(fields[1..])
    else [Field(fields[0].key, Seen(fields[0].value))] + SeenFields(fields[1..])
  }

  /** No string or key that is printed has a separator in it. */
  predicate Clean(v: Value)
    decreases v, 1
  {
    match v
    case String(s) => Plain(s)
    case Array(items) => CleanItems(items)
    case Object(fields) => CleanFields(fields)
    case _ => true
  }

  predicate CleanItems(items: seq<Value>)
    decreases items, 0
  {
    items == [] || (Clean(items[0]) && CleanItems(items[1..]))
  }

  predicate CleanFields(fields: seq<Field>)
    decreases fields, 0
  {
    fields == [] ||
    ((fields[0].value.Function? || (Plain(fields[0].key) && Clean(fields[0].value))) && CleanFields(fields[1..]))
  }

  function Readable(v: Value): Option<Value> {
    if Clean(v) then Some(Seen(v)) else None
  }

  function ReadableItem(v: Value): Option<Value> {
    if v.Function? then Some(Undefined) else Readable(v)
  }

  function ReadableItems(items: seq<Value>): Option<seq<Value>> {
    if CleanItems(items) then Some(SeenItems(items)) else None
  }

  function ReadableFields(fields: seq<Field>): Option<seq<Field>> {
    if CleanFields(fields) then Some(SeenFields(fields)) else None
  }

  /** The characters up to the next punctuation mark. */
  function Token(text: string): (t: string)
    ensures t <= text
  {
    if text == "" || Punctuation(text[0]) then "" else [text[0]] + Token(text[1..])
  }

  function OfToken(t: string): Option<Value> {
    if t == "undefined" then Some(Undefined)
    else if t == "null" then Some(Null)
    else if t == "true" then Some(Boolean(true))
    else if t == "false" then Some(Boolean(false))
    else if IsNumberText(t) then Some(Number(t))
    else None
  }

  lemma {:induction false} ReadStringShrinks(text: string)
    ensures var r := ReadString(text); r.Some? ==> |r.value.1| < |text|
    decreases |text|
  {
    if text != "" && text[0] != '\"' && !LineTerminator(text[0]) {
      if text[0] != '\\' {
        ReadStringShrinks(text[1..]);
      } else if |text| > 1 && !LineTerminator(text[1]) {
        ReadStringShrinks(text[2..]);
      }
    }
  }

  /** A reader of object literals without layout: the value and the text behind it. */
  function ReadValue(text: string): (r: Option<(Value, string)>)
    ensures r.Some? ==> |r.value.1| < |text|
    decreases |text|, 0
  {
    if text == "" then None
    else if text[0] == '\"' then
      ReadStringShrinks(text[1..]);
      match ReadString(text[1..])
      case None => None
      case Some((s, rest)) => Some((String(s), rest))
    else if text[0] == '[' then
      if |text| > 1 && text[1] == ']' then Some((Array([]), text[2..]))
      else
        match ReadItems(text[1..])
        case None => None
        case Some((items, rest)) => Some((Array(items), rest))
    else if text[0] == '{' then
      if |text| > 1 && text[1] == '}' then Some((Object([]), text[2..]))
      else
        match ReadFields(text[1..])
        case None => None
        case Some((fields, rest)) => Some((Object(fields), rest))
    else
      var t := Token(text);
      if t == "" then None
      else
        match OfToken(t)
        case None => None
        case Some(v) => Some((v, text[|t|..]))
  }

  function ReadItems(text: string): (r: Option<(seq<Value>, string)>)
    ensures r.Some? ==> |r.value.1| < |text|
    decreases |text|, 1
  {
    match ReadValue(text)
    case None => None
    case Some((v, rest)) =>
      if rest == "" then None
      else if rest[0] == ']' then Some(([v], rest[1..]))
      else if rest[0] != ',' then None
      else
        match ReadItems(rest[1..])
        case None => None
        case Some((items, end)) => Some(([v] + items, end))
  }

  function ReadFields(text: string): (r: Option<(seq<Field>, string)>)
    ensures r.Some? ==> |r.value.1| < |text|
    decreases |text|, 1
  {
    if text == "" || text[0] != '\"' then None
    else
      ReadStringShrinks(text[1..]);
      match ReadString(text[1..])
      case None => None
      case Some((key, after)) =>
        if after == "" || after[0] != ':' then None
        else
          match ReadValue(after[1..])
          case None => None
          case Some((v, rest)) =>
            if rest == "" then None
            else if rest[0] == '}' then Some(([Field(key, v)], rest[1..]))
            else if rest[0] != ',' then None
            else
              match ReadFields(rest[1..])
              case None => None
              case Some((fields, end)) => Some(([Field(key, v)] + fields, end))
  }

  /** What may follow a value: the end, or punctuation. */
  predicate Ends(tail: string) {
    tail == "" || Punctuation(tail[0])
  }

  lemma {:induction false} TokenStops(t: string, tail: string)
    requires Ends(tail) && forall i :: 0 <= i < |t| ==> !Punctuation(t[i])
    ensures Token(t + tail) == t
  {
    if t == "" {
      assert t + tail == tail;
    } else {
      assert (t + tail)[1..] == t[1..] + tail;
      TokenStops(t[1..], tail);
    }
  }

  lemma ReadsToken(t: string, tail: string)
    requires Ends(tail) && t != "" && t[0] != '\"' && forall i :: 0 <= i < |t| ==> !Punctuation(t[i])
    ensures ReadValue(t + tail) == match OfToken(t) case None => None case Some(v) => Some((v, tail))
  {
    TokenStops(t, tail);
    assert (t + tail)[0] == t[0] && (t + tail)[|t|..] == tail;
    assert !Punctuation(t[0]);
  }

  /** fromJson undoes toJson: printed without layout, a value reads back as itself, up to
      the functions in it, exactly if no separator is printed; otherwise it does not read. */
  lemma {:induction false} ReadsBack(v: Value, unit: string, tail: string)
    requires !v.Function? && Ends(tail)
    ensures ReadValue(ToJson(v, false, unit, "").value + tail) == With(Readable(v), tail)
    decreases v, 1
  {
    hide ReadValue, ReadItems, ReadFields, EscapeString, Join, Bracketed, Token, OfToken;
    match v
    case Undefined => ReadsWords(tail);
    case Null => ReadsWords(tail);
    case Boolean(b) => ReadsWords(tail);
    case Number(text) => ReadsNumber(text, tail);
    case String(s) => ReadsLiteral(s, tail);
    case Array(items) => ReadsArray(items, unit, tail);
    case Object(fields) => ReadsObject(fields, unit, tail);
  }

  lemma ReadsWords(tail: string)
    requires Ends(tail)
    ensures ReadValue("undefined" + tail) == Some((Undefined, tail))
    ensures ReadValue("null" + tail) == Some((Null, tail))
    ensures ReadValue("true" + tail) == Some((Boolean(true), tail))
    ensures ReadValue("false" + tail) == Some((Boolean(false), tail))
  {
    hide ReadValue;
    ReadsToken("undefined", tail);
    ReadsToken("null", tail);
    ReadsToken("true", tail);
    ReadsToken("false", tail);
  }

  lemma ReadsNumber(text: NumberText, tail: string)
    requires Ends(tail)
    ensures ReadValue(text + tail) == Some((Number(text), tail))
  {
    hide ReadValue;
    ReadsToken(text, tail);
  }

  lemma LiteralOpens(s: string, tail: string)
    ensures EscapeString(s) + tail != "" && (EscapeString(s) + tail)[0] == '\"'
    ensures ReadString((EscapeString(s) + tail)[1..]) == With(ReadableString(s), tail)
  {
    hide ReadString;
    EscapeStringIs(s);
    assert (EscapeString(s) + tail)[1..] == EscapeEach(s) + "\"" + tail;
    LiteralReadsBack(s, tail);
  }

  lemma ReadsLiteral(s: string, tail: string)
    ensures ReadValue(EscapeString(s) + tail) == With(Readable(String(s)), tail)
  {
    hide EscapeString, ReadString, Plain;
    LiteralOpens(s, tail);
  }

  /** The text of a value does not start with a closing bracket. */
  lemma TextOpens(v: Value, unit: string)
    ensures var text := ToJson(v, false, unit, "");
            text.Some? ==> text.value != "" && text.value[0] != ']' && text.value[0] != '}'
  {
    hide EscapeEach, Join;
    match v
    case String(s) => EscapeStringIs(s);
    case _ =>
  }

  lemma CompactBrackets(left: string, parts: seq<string>, right: string, tail: string)
    ensures Bracketed(false, left, parts, "", right) + tail == left + (Join(parts, ",") + (right + tail))
  {
    hide Join;
    assert "," + "" == ",";
  }

  lemma OpeningBracket(body: string)
    requires body != "" && body[0] != ']' && body[0] != '}'
    ensures ReadValue("[" + body) == match ReadItems(body) case None => None case Some((items, end)) => Some((Array(items), end))
    ensures ReadValue("{" + body) == match ReadFields(body) case None => None case Some((fields, end)) => Some((Object(fields), end))
  {
    assert ("[" + body)[1..] == body && ("{" + body)[1..] == body;
  }

  lemma EmptyBrackets(tail: string)
    ensures ReadValue("[" + ("" + ("]" + tail))) == Some((Array([]), tail))
    ensures ReadValue("{" + ("" + ("}" + tail))) == Some((Object([]), tail))
  {
    assert "[" + ("" + ("]" + tail)) == "[]" + tail && ("[]" + tail)[2..] == tail;
    assert "{" + ("" + ("}" + tail)) == "{}" + tail && ("{}" + tail)[2..] == tail;
  }

  lemma {:induction false} ReadsArray(items: seq<Value>, unit: string, tail: string)
    requires Ends(tail)
    ensures ReadValue(ToJson(Array(items), false, unit, "").value + tail) == With(Readable(Array(items)), tail)
    decreases items, 1
  {
    hide ReadValue, ReadItems, Bracketed;
    var texts := ItemTexts(items, false, unit, "");
    CompactBrackets("[", texts, "]", tail);
    if items == [] {
      EmptyBrackets(tail);
    } else {
      ReadsItems(items, unit, tail);
      JoinOpens(items[0], items[1..], unit);
      OpeningBracket(Join(texts, ",") + ("]" + tail));
    }
  }

  function ItemText(v: Value, unit: string): string {
    var text := ToJson(v, false, unit, "");
    if text.Some? then text.value else "undefined"
  }

  lemma JoinOpens(v: Value, rest: seq<Value>, unit: string)
    ensures var text := Join(ItemTexts([v] + rest, false, unit, ""), ","); text != "" && text[0] != ']' && text[0] != '}'
  {
    hide ToJson;
    TextOpens(v, unit);
    assert ([v] + rest)[1..] == rest;
    assert NewLine(false) + "" + ItemText(v, unit) == ItemText(v, unit);
    var texts := ItemTexts(rest, false, unit, "");
    assert ItemTexts([v] + rest, false, unit, "") == [ItemText(v, unit)] + texts;
    JoinFirst(ItemText(v, unit), texts, "");
  }

  lemma {:induction false} ReadsItem(v: Value, unit: string, tail: string)
    requires Ends(tail)
    ensures ReadValue(ItemText(v, unit) + tail) == With(ReadableItem(v), tail)
    decreases v, 2
  {
    hide ReadValue, Bracketed, EscapeString;
    if v.Function? {
      ReadsWords(tail);
    } else {
      ReadsBack(v, unit, tail);
    }
  }

  lemma ItemsOne(r: Option<Value>, text: string, end: string)
    requires ReadValue(text + ("]" + end)) == With(r, "]" + end)
    ensures ReadItems(text + ("]" + end)) == if r.Some? then Some(([r.value], end)) else None
  {
    assert ("]" + end)[1..] == end;
  }

  lemma ItemsMore(r: Option<Value>, text: string, items: Option<seq<Value>>, body: string, end: string)
    requires ReadValue(text + ("," + body)) == With(r, "," + body)
    requires ReadItems(body) == With(items, end)
    ensures ReadItems(text + ("," + body)) ==
            if r.Some? && items.Some? then Some(([r.value] + items.value, end)) else None
  {
    assert ("," + body)[1..] == body;
  }

  lemma JoinFirst(text: string, texts: seq<string>, tail: string)
    ensures Join([text] + texts, ",") + tail == text + if texts == [] then tail else "," + (Join(texts, ",") + tail)
  {
    assert ([text] + texts)[1..] == texts;
  }

  lemma ReadableFirst(items: seq<Value>)
    requires items != []
    ensures var r, rs := ReadableItem(items[0]), ReadableItems(items[1..]);
            ReadableItems(items) == if r.Some? && rs.Some? then Some([r.value] + rs.value) else None
  {
    var v, rest := items[0], items[1..];
    assert CleanItems(items) <==> Clean(v) && CleanItems(rest);
    assert SeenItems(items) == [if v.Function? then Undefined else Seen(v)] + SeenItems(rest);
    assert v.Function? ==> Clean(v);
  }

  lemma {:induction false} ReadsItems(items: seq<Value>, unit: string, tail: string)
    requires items != []
    ensures ReadItems(Join(ItemTexts(items, false, unit, ""), ",") + ("]" + tail)) == With(ReadableItems(items), tail)
    decreases items, 0
  {
    hide ReadValue, ReadItems, Join, Seen, ToJson;
    var text := ItemText(items[0], unit);
    assert NewLine(false) + "" + text == text;
    var rest := items[1..];
    var texts := ItemTexts(rest, false, unit, "");
    assert ItemTexts(items, false, unit, "") == [text] + texts;
    JoinFirst(text, texts, "]" + tail);
    var r := ReadableItem(items[0]);
    ReadableFirst(items);
    if rest == [] {
      ReadsItem(items[0], unit, "]" + tail);
      ItemsOne(r, text, tail);
      assert ReadableItems([]) == Some([]);
      assert r.Some? ==> [r.value] + [] == [r.value];
    } else {
      ReadsItems(rest, unit, tail);
      var body := Join(texts, ",") + ("]" + tail);
      ReadsItem(items[0], unit, "," + body);
      ItemsMore(r, text, ReadableItems(rest), body, tail);
    }
  }

  lemma {:induction false} SeenFieldsPrinted(fields: seq<Field>, unit: string)
    ensures |SeenFields(fields)| == |FieldTexts(fields, false, unit, "")|
  {
    if fields != [] {
      SeenFieldsPrinted(fields[1..], unit);
    }
  }

  lemma {:induction false} FieldsClean(fields: seq<Field>, unit: string)
    ensures FieldTexts(fields, false, unit, "") == [] ==> CleanFields(fields)
  {
    if fields != [] {
      FieldsClean(fields[1..], unit);
    }
  }

  lemma {:induction false} ReadsObject(fields: seq<Field>, unit: string, tail: string)
    requires Ends(tail)
    ensures ReadValue(ToJson(Object(fields), false, unit, "").value + tail) == With(Readable(Object(fields)), tail)
    decreases fields, 1
  {
    hide ReadValue, ReadFields, Bracketed;
    var texts := FieldTexts(fields, false, unit, "");
    CompactBrackets("{", texts, "}", tail);
    SeenFieldsPrinted(fields, unit);
    if texts == [] {
      FieldsClean(fields, unit);
      EmptyBrackets(tail);
    } else {
      ReadsFields(fields, unit, tail);
      FieldsOpen(fields, unit);
      OpeningBracket(Join(texts, ",") + ("}" + tail));
    }
  }

  lemma {:induction false} FieldsOpen(fields: seq<Field>, unit: string)
    requires FieldTexts(fields, false, unit, "") != []
    ensures var text := Join(FieldTexts(fields, false, unit, ""), ","); text != "" && text[0] == '\"'
    decreases fields, 0
  {
    hide ToJson, EscapeEach, Join;
    var key, value, rest := fields[0].key, fields[0].value, fields[1..];
    if value.Function? {
      FieldsOpen(rest, unit);
    } else {
      var text := ToJson(value, false, unit, "").value;
      var printed := NewLine(false) + "" + EscapeString(key) + ":" + Space(false) + text;
      EscapeStringIs(key);
      assert printed[0] == EscapeString(key)[0] == '\"';
      var texts := FieldTexts(rest, false, unit, "");
      assert FieldTexts(fields, false, unit, "") == [printed] + texts;
      JoinFirst(printed, texts, "");
      var joined := Join([printed] + texts, ",");
      assert joined + "" == joined;
    }
  }

  lemma FieldsOne(key: string, r: Option<Value>, text: string, end: string)
    requires ReadValue(text + ("}" + end)) == With(r, "}" + end)
    ensures ReadFields(EscapeString(key) + (":" + (text + ("}" + end)))) ==
            if Plain(key) && r.Some? then Some(([Field(key, r.value)], end)) else None
  {
    hide EscapeString, ReadString, ReadValue, Plain;
    var after := ":" + (text + ("}" + end));
    LiteralOpens(key, after);
    assert after[1..] == text + ("}" + end) && ("}" + end)[1..] == end;
  }

  lemma FieldsMore(key: string, r: Option<Value>, text: string, fields: Option<seq<Field>>, body: string, end: string)
    requires ReadValue(text + ("," + body)) == With(r, "," + body)
    requires ReadFields(body) == With(fields, end)
    ensures ReadFields(EscapeString(key) + (":" + (text + ("," + body)))) ==
            if Plain(key) && r.Some? && fields.Some? then Some(([Field(key, r.value)] + fields.value, end)) else None
  {
    hide EscapeString, ReadString, ReadValue, Plain;
    var after := ":" + (text + ("," + body));
    LiteralOpens(key, after);
    assert after[1..] == text + ("," + body) && ("," + body)[1..] == body;
  }

  lemma FieldFollowed(key: string, text: string, after: string)
    ensures key + ":" + text + after == key + (":" + (text + after))
  {
  }

  lemma FieldCompact(key: string, text: string)
    ensures NewLine(false) + "" + key + ":" + Space(false) + text == key + ":" + text
  {
  }

  lemma {:induction false} ReadsFields(fields: seq<Field>, unit: string, tail: string)
    requires FieldTexts(fields, false, unit, "") != []
    ensures ReadFields(Join(FieldTexts(fields, false, unit, ""), ",") + ("}" + tail)) == With(ReadableFields(fields), tail)
    decreases fields, 0
  {
    hide ReadValue, ReadFields, Join, Seen, EscapeString, Bracketed, Plain, Clean;
    var key, value, rest := fields[0].key, fields[0].value, fields[1..];
    var texts := FieldTexts(rest, false, unit, "");
    SeenFieldsPrinted(rest, unit);
    if value.Function? {
      ReadsFields(rest, unit, tail);
    } else {
      var text := ToJson(value, false, unit, "").value;
      var printed := EscapeString(key) + ":" + text;
      FieldCompact(EscapeString(key), text);
      JoinFirst(printed, texts, "}" + tail);
      if texts == [] {
        FieldFollowed(EscapeString(key), text, "}" + tail);
        ReadsBack(value, unit, "}" + tail);
        FieldsOne(key, Readable(value), text, tail);
        FieldsClean(rest, unit);
        assert SeenFields(fields) == [Field(key, Seen(value))] + SeenFields(rest) == [Field(key, Seen(value))];
      } else {
        ReadsFields(rest, unit, tail);
        var body := Join(texts, ",") + ("}" + tail);
        FieldFollowed(EscapeString(key), text, "," + body);
        ReadsBack(value, unit, "," + body);
        FieldsMore(key, Readable(value), text, ReadableFields(rest), body, tail);
      }
    }
  }

  /** The two directions together: for every value but a function, either way of printing
      it, stripped of layout, reads back as the value exactly if no printed string or key has
      a separator in it. */
  lemma JsonRoundTrip(v: Value, unit: string)
    requires !v.Function? && Blank(unit)
    ensures ReadValue(ToJson(v, false, unit, "").value) == Some((Seen(v), "")) <==> Clean(v)
    ensures ToJson(v, true, unit, "").Some?
    ensures ReadValue(Strip(ToJson(v, true, unit, "").value, Outside)) == Some((Seen(v), "")) <==> Clean(v)
  {
    hide ReadValue, ToJson, Clean, Seen;
    var text := ToJson(v, false, unit, "").value;
    ReadsBack(v, unit, "");
    assert text + "" == text;
    PrettyLays(v, unit, "");
  }

  /** The string of one such character prints to a text that does not read at all. */
  lemma SeparatorDoesNotRead(unit: string)
    ensures ReadValue(ToJson(String("\U{2028}"), false, unit, "").value) == None
  {
    hide ReadValue;
    var v := String("\U{2028}");
    assert !Clean(v) by {
      assert Separator("\U{2028}"[0]);
    }
    ReadsBack(v, unit, "");
    assert ToJson(v, false, unit, "").value + "" == ToJson(v, false, unit, "").value;
  }

  // ------------------------------------------- pretty printing, line by line

  /** A value on lines of its own, without the indentation of what encloses it. */
  function Lines(v: Value, unit: string): (r: seq<string>)
    ensures r != []
    decreases v, 1
  {
    match v
    case Undefined => ["undefined"]
    case Null => ["null"]
    case Boolean(b) => [if b then "true" else "false"]
    case Number(text) => [text]
    case String(s) => ["\"" + EscapeEach(s) + "\""]
    case Function => ["undefined"]
    case Array(items) => ["["] + Stacked(ItemLines(items, unit), unit) + ["]"]
    case Object(fields) => ["{"] + Stacked(FieldLines(fields, unit), unit) + ["}"]
  }

  function ItemLines(items: seq<Value>, unit: string): (r: seq<seq<string>>)
    ensures forall i :: 0 <= i < |r| ==> r[i] != []
    decreases items, 0
  {
    if items == [] then [] else [Lines(items[0], unit)] + ItemLines(items[1..], unit)
  }

  function FieldLines(fields: seq<Field>, unit: string): (r: seq<seq<string>>)
    ensures forall i :: 0 <= i < |r| ==> r[i] != []
    decreases fields, 0
  {
    if fields == [] then []
    else if fields[0].value.Function? then FieldLines(fields[1..], unit)
    else
      var ls := Lines(fields[0].value, unit);
      [["\"" + EscapeEach(fields[0].key) + "\": " + ls[0]] + ls[1..]] + FieldLines(fields[1..], unit)
  }

  /** The blocks one below the other, one unit to the right, with commas in between. */
  function Stacked(blocks: seq<seq<string>>, unit: string): seq<string>
    requires forall i :: 0 <= i < |blocks| ==> blocks[i] != []
  {
    if blocks == [] then []
    else if |blocks| == 1 then Indented(blocks[0], unit)
    else
      var first := Indented(blocks[0], unit);
      first[..|first| - 1] + [first[|first| - 1] + ", "] + Stacked(blocks[1..], unit)
  }

  function Indented(lines: seq<string>, unit: string): (r: seq<string>)
    ensures |r| == |lines|
  {
    if lines == [] then [] else [unit + lines[0]] + Indented(lines[1..], unit)
  }

  /** Lines with their line breaks and the indentation of what encloses them in front. */
  function Broken(lines: seq<string>, indent: string): string {
    if lines == [] then "" else "\n" + indent + lines[0] + Broken(lines[1..], indent)
  }

  lemma {:induction false} BrokenConcat(a: seq<string>, b: seq<string>, indent: string)
    ensures Broken(a + b, indent) == Broken(a, indent) + Broken(b, indent)
  {
    if a == [] {
      assert a + b == b;
    } else {
      assert (a + b)[1..] == a[1..] + b;
      BrokenConcat(a[1..], b, indent);
      Associative("\n" + indent + a[0], Broken(a[1..], indent), Broken(b, indent));
    }
  }

  lemma BrokenOne(line: string, indent: string)
    ensures Broken([line], indent) == "\n" + indent + line
  {
    assert [line][1..] == [] && "\n" + indent + line + "" == "\n" + indent + line;
  }

  lemma {:induction false} BrokenIndented(lines: seq<string>, unit: string, indent: string)
    ensures Broken(Indented(lines, unit), indent) == Broken(lines, indent + unit)
  {
    if lines != [] {
      BrokenIndented(lines[1..], unit, indent);
      assert Indented(lines, unit)[1..] == Indented(lines[1..], unit);
      assert "\n" + indent + (unit + lines[0]) == "\n" + (indent + unit) + lines[0];
    }
  }

  lemma BrokenComma(lines: seq<string>, indent: string)
    requires lines != []
    ensures var n := |lines| - 1; Broken(lines[..n] + [lines[n] + ", "], indent) == Broken(lines, indent) + ", "
  {
    hide Broken;
    var n := |lines| - 1;
    assert lines == lines[..n] + [lines[n]];
    BrokenConcat(lines[..n], [lines[n]], indent);
    BrokenConcat(lines[..n], [lines[n] + ", "], indent);
    BrokenOne(lines[n], indent);
    BrokenOne(lines[n] + ", ", indent);
    assert "\n" + indent + (lines[n] + ", ") == "\n" + indent + lines[n] + ", ";
    Associative(Broken(lines[..n], indent), "\n" + indent + lines[n], ", ");
  }

  /** Each text is its block, on new lines one unit to the right. */
  ghost predicate Blocks(texts: seq<string>, blocks: seq<seq<string>>, unit: string, indent: string) {
    && |texts| == |blocks|
    && (forall i :: 0 <= i < |blocks| ==> blocks[i] != [])
    && forall i :: 0 <= i < |texts| ==> texts[i] == Broken(blocks[i], indent + unit)
  }

  lemma {:induction false} JoinStacked(texts: seq<string>, blocks: seq<seq<string>>, unit: string, indent: string)
    requires Blocks(texts, blocks, unit, indent)
    ensures Join(texts, ", ") == Broken(Stacked(blocks, unit), indent)
    decreases |texts|
  {
    hide Broken, Indented;
    if texts == [] {
      BrokenNone(indent);
    } else {
      BrokenIndented(blocks[0], unit, indent);
      if |texts| > 1 {
        JoinStacked(texts[1..], blocks[1..], unit, indent);
        var first := Indented(blocks[0], unit);
        var n := |first| - 1;
        BrokenComma(first, indent);
        BrokenConcat(first[..n] + [first[n] + ", "], Stacked(blocks[1..], unit), indent);
      }
    }
  }

  lemma BrokenNone(indent: string)
    ensures Broken([], indent) == ""
  {
  }

  lemma BracketedLines(left: string, texts: seq<string>, blocks: seq<seq<string>>, right: string, unit: string, indent: string)
    requires Blocks(texts, blocks, unit, indent)
    ensures Bracketed(true, left, texts, indent, right) ==
            left + Broken(Stacked(blocks, unit) + [right], indent)
  {
    hide Broken, Stacked, Join;
    JoinStacked(texts, blocks, unit, indent);
    BrokenConcat(Stacked(blocks, unit), [right], indent);
    BrokenOne(right, indent);
    assert "," + " " == ", ";
    var middle := Broken(Stacked(blocks, unit), indent);
    assert left + middle + "\n" + indent + right == left + (middle + ("\n" + indent + right));
  }

  /** The pretty text of a value is its lines. */
  lemma {:induction false} PrettyLines(v: Value, unit: string, indent: string)
    requires !v.Function?
    ensures ToJson(v, true, unit, indent).value == Lines(v, unit)[0] + Broken(Lines(v, unit)[1..], indent)
    decreases v, 1
  {
    hide Broken, Bracketed, Stacked, EscapeString;
    if v.Array? {
      var texts, blocks := ItemTexts(v.items, true, unit, indent + unit), ItemLines(v.items, unit);
      ItemBlocks(v.items, unit, indent);
      BracketedLines("[", texts, blocks, "]", unit, indent);
      assert Lines(v, unit)[1..] == Stacked(blocks, unit) + ["]"];
    } else if v.Object? {
      var texts, blocks := FieldTexts(v.fields, true, unit, indent + unit), FieldLines(v.fields, unit);
      FieldBlocks(v.fields, unit, indent);
      BracketedLines("{", texts, blocks, "}", unit, indent);
      assert Lines(v, unit)[1..] == Stacked(blocks, unit) + ["}"];
    } else {
      ScalarLine(v, unit, indent);
    }
  }

  lemma ScalarLine(v: Value, unit: string, indent: string)
    requires !v.Function? && !v.Array? && !v.Object?
    ensures ToJson(v, true, unit, indent).value == Lines(v, unit)[0] + Broken(Lines(v, unit)[1..], indent)
  {
    hide EscapeString, EscapeEach;
    if v.String? {
      EscapeStringIs(v.s);
    }
    var text := ToJson(v, true, unit, indent).value;
    assert Lines(v, unit) == [text] && [text][1..] == [] && text + "" == text;
  }

  lemma BlockText(prefix: string, lines: seq<string>, next: string)
    requires lines != []
    ensures "\n" + next + (prefix + (lines[0] + Broken(lines[1..], next))) ==
            Broken([prefix + lines[0]] + lines[1..], next)
  {
    assert ([prefix + lines[0]] + lines[1..])[1..] == lines[1..];
  }

  lemma {:induction false} ItemBlocks(items: seq<Value>, unit: string, indent: string)
    ensures Blocks(ItemTexts(items, true, unit, indent + unit), ItemLines(items, unit), unit, indent)
    decreases items, 0
  {
    hide Broken, Stacked, ToJson;
    if items != [] {
      var next, v := indent + unit, items[0];
      var lines := Lines(v, unit);
      if v.Function? {
        UndefinedLine(unit, next);
      } else {
        PrettyLines(v, unit, next);
      }
      BlockText("", lines, next);
      assert "" + lines[0] == lines[0] && [lines[0]] + lines[1..] == lines;
      ItemBlocks(items[1..], unit, indent);
    }
  }

  lemma UndefinedLine(unit: string, next: string)
    ensures "undefined" == Lines(Function, unit)[0] + Broken(Lines(Function, unit)[1..], next)
    ensures ToJson(Function, true, unit, next).None?
  {
  }

  lemma {:induction false} FieldBlocks(fields: seq<Field>, unit: string, indent: string)
    ensures Blocks(FieldTexts(fields, true, unit, indent + unit), FieldLines(fields, unit), unit, indent)
    decreases fields, 0
  {
    hide Broken, Stacked, ToJson, EscapeString;
    if fields != [] {
      var next, key, v := indent + unit, fields[0].key, fields[0].value;
      FieldBlocks(fields[1..], unit, indent);
      if !v.Function? {
        var lines := Lines(v, unit);
        PrettyLines(v, unit, next);
        EscapeStringIs(key);
        var prefix := "\"" + EscapeEach(key) + "\": ";
        BlockText(prefix, lines, next);
        var text := ToJson(v, true, unit, next).value;
        assert "\n" + next + EscapeString(key) + ":" + " " + text == "\n" + next + (prefix + text);
      }
    }
  }

  /** dojo.toJson(v, true): the lines, each nested one unit deeper than what encloses it. */
  lemma PrettyIsLines(v: Value, unit: string)
    requires !v.Function?
    ensures ToJson(v, true, unit, "").value == Join(Lines(v, unit), "\n")
  {
    hide ToJson, Lines, Broken, Join;
    PrettyLines(v, unit, "");
    JoinBroken(Lines(v, unit));
  }

  lemma {:induction false} JoinBroken(lines: seq<string>)
    requires lines != []
    ensures Join(lines, "\n") == lines[0] + Broken(lines[1..], "")
  {
    if |lines| > 1 {
      JoinBroken(lines[1..]);
      var rest := lines[1..];
      assert "\n" + "" + rest[0] == "\n" + rest[0];
      assert lines[0] + "\n" + (rest[0] + Broken(rest[1..], "")) == lines[0] + ("\n" + rest[0] + Broken(rest[1..], ""));
    } else {
      assert lines[1..] == [];
    }
  }

  /** The escape sequences, spelled out. */
  lemma EscapesExample()
    ensures EscapeString(['\"', '\\', '\U{000C}', '\U{0008}', '\n', '\t', '\r', 'x']) ==
            "\"\\\"\\\\\\f\\b\\n\\t\\rx\""
  {
    hide EscapeEach, EscapeString;
    var s := ['\"', '\\', '\U{000C}', '\U{0008}', '\n', '\t', '\r', 'x'];
    EscapeStringIs(s);
    EachFirst('x', "");
    EachFirst('\r', "x");
    EachFirst('\t', "\rx");
    EachFirst('\n', "\t\rx");
    EachFirst('\U{0008}', "\n\t\rx");
    EachFirst('\U{000C}', ['\U{0008}'] + "\n\t\rx");
    EachFirst('\\', ['\U{000C}', '\U{0008}'] + "\n\t\rx");
    EachFirst('\"', ['\\', '\U{000C}', '\U{0008}'] + "\n\t\rx");
    EachNone();
    assert s == ['\"'] + (['\\', '\U{000C}', '\U{0008}'] + "\n\t\rx");
    assert ['\\', '\U{000C}', '\U{0008}'] + "\n\t\rx" == ['\\'] + (['\U{000C}', '\U{0008}'] + "\n\t\rx");
    assert ['\U{000C}', '\U{0008}'] + "\n\t\rx" == ['\U{000C}'] + (['\U{0008}'] + "\n\t\rx");
    assert "\n\t\rx" == ['\n'] + "\t\rx" && "\t\rx" == ['\t'] + "\rx" && "\rx" == ['\r'] + "x" && "x" == ['x'] + "";
  }

  lemma EachFirst(c: char, s: string)
    ensures EscapeEach([c] + s) == EscapeChar(c) + EscapeEach(s)
  {
    assert ([c] + s)[1..] == s;
  }

  lemma EachNone()
    ensures EscapeEach("") == ""
  {
  }
}
