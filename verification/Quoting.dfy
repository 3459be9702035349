/**
 shellQuote against a model of POSIX shell tokenising (XCU sections 2.2.1
 Escape Character, 2.2.2 Single-Quotes, 2.2.3 Double-Quotes), and the command
 templates it is used in.
 */
module Quoting {
  import opened Wrappers

  datatype Mode = Plain | Escaped | Single | Double | DoubleEscaped

  datatype Token = Word(text: string) | Special(c: char)

  /** What was recognised so far, the word in progress if any, and how the next character is quoted. */
  datatype Lexer = Lexer(tokens: seq<Token>, word: Option<string>, mode: Mode)

  const START := Lexer([], None, Plain)

  function Appended(l: Lexer, s: string): Lexer {
    l.(word := Some(if l.word.Some? then l.word.value + s else s))
  }

  function Finished(l: Lexer): Lexer {
    if l.word.Some? then l.(tokens := l.tokens + [Word(l.word.value)], word := None) else l
  }

  /** The other characters section 2.2 says must, or may have to, be quoted to stand for themselves. */
  predicate IsSpecial(c: char) {
    c in "|&;<>()$`*?[#~=%"
  }

  /** Double quotes leave the dollar sign and the backquote their meaning: the word goes on after an expansion. */
  function Expanding(l: Lexer, c: char): Lexer {
    l.(tokens := Finished(l).tokens + [Special(c)], word := Some(""))
  }

  function Step(l: Lexer, c: char): Lexer {
    match l.mode
    case Plain =>
      if c == '\'' then Appended(l, "").(mode := Single)
      else if c == '"' then Appended(l, "").(mode := Double)
      else if c == '\\' then l.(mode := Escaped)
      else if c in " \t\n" then Finished(l)
      else if IsSpecial(c) then var f := Finished(l); f.(tokens := f.tokens + [Special(c)])
      else Appended(l, [c])
    case Escaped =>
      if c == '\n' then l.(mode := Plain) else Appended(l, [c]).(mode := Plain)
    case Single =>
      if c == '\'' then l.(mode := Plain) else Appended(l, [c])
    case Double =>
      if c == '"' then l.(mode := Plain)
      else if c == '\\' then l.(mode := DoubleEscaped)
      else if c in "$`" then Expanding(l, c)
      else Appended(l, [c])
    case DoubleEscaped =>
      if c == '\n' then l.(mode := Double)
      else if c in "$`\"\\" then Appended(l, [c]).(mode := Double)
      else Appended(l, ['\\', c]).(mode := Double)
  }

  function Lex(l: Lexer, s: string): Lexer
    decreases s
  {
    if s == "" then l else Lex(Step(l, s[0]), s[1..])
  }

  /** strings.ReplaceAll(s, "'", "'\\''") */
  function Escape(s: string): string {
    if s == "" then "" else (if s[0] == '\'' then "'\\''" else [s[0]]) + Escape(s[1..])
  }

  function ShellQuote(s: string): string {
    "'" + Escape(s) + "'"
  }

  lemma {:induction false} LexConcat(l: Lexer, a: string, b: string)
    ensures Lex(l, a + b) == Lex(Lex(l, a), b)
    decreases a
  {
    if a == "" {
      assert a + b == b;
    } else {
      assert (a + b)[1..] == a[1..] + b;
      LexConcat(Step(l, a[0]), a[1..], b);
    }
  }

  lemma {:induction false} LexInsideQuotes(l: Lexer, s: string)
    requires l.mode == Single && l.word.Some?
    ensures Lex(l, Escape(s)) == Appended(l, s)
    decreases s
  {
    if s == "" {
      assert l.word.value + "" == l.word.value;
    } else {
      LexConcat(l, if s[0] == '\'' then "'\\''" else [s[0]], Escape(s[1..]));
      QuotedChar(l, s[0]);
      LexInsideQuotes(Appended(l, [s[0]]), s[1..]);
      assert l.word.value + [s[0]] + s[1..] == l.word.value + s;
    }
  }

  lemma LexOne(l: Lexer, c: char)
    ensures Lex(l, [c]) == Step(l, c)
  {
    assert [c][1..] == "";
  }

  lemma QuotedChar(l: Lexer, c: char)
    requires l.mode == Single && l.word.Some?
    ensures Lex(l, if c == '\'' then "'\\''" else [c]) == Appended(l, [c])
  {
    LexOne(l, c);
    if c == '\'' {
      hide Lex;
      var l1 := Step(l, '\'');
      var l2 := Step(l1, '\\');
      var l3 := Step(l2, '\'');
      assert "'\\''" == "'" + ("\\" + ("'" + "'"));
      LexConcat(l, "'", "\\" + ("'" + "'"));
      LexConcat(l1, "\\", "'" + "'");
      LexConcat(l2, "'", "'");
      LexOne(l1, '\\');
      LexOne(l2, '\'');
      LexOne(l3, '\'');
      assert l3.word.value + "" == l3.word.value;
    }
  }

  /**
   Outside quotes, a quoted string is exactly its own text appended to the
   word in progress, and the lexer is outside quotes again: whatever stands
   before or after it lexes as if the string were not there.
   */
  lemma QuoteRoundTrip(l: Lexer, s: string)
    requires l.mode == Plain
    ensures Lex(l, ShellQuote(s)) == Appended(l, s)
  {
    hide Lex, Escape;
    var inside := Step(l, '\'');
    var before := if l.word.Some? then l.word.value else "";
    assert before + "" == before && "" + s == s && inside == l.(word := Some(before), mode := Single);
    LexConcat(l, "'" + Escape(s), "'");
    LexConcat(l, "'", Escape(s));
    LexOne(l, '\'');
    LexInsideQuotes(inside, s);
    LexOne(Appended(inside, s), '\'');
  }

  /** Standing alone, it is one word equal to the input. */
  lemma QuoteIsOneWord(s: string)
    ensures Finished(Lex(START, ShellQuote(s))) == Lexer([Word(s)], None, Plain)
  {
    QuoteRoundTrip(START, s);
  }

  /** Inside quotes a word is always in progress. */
  predicate IsState(l: Lexer) {
    l.mode in {Single, Double, DoubleEscaped} ==> l.word.Some?
  }

  lemma {:induction false} LexKeepsState(l: Lexer, s: string)
    requires IsState(l)
    ensures IsState(Lex(l, s))
    decreases s
  {
    if s != "" {
      LexKeepsState(Step(l, s[0]), s[1..]);
    }
  }

  /** After any text, quoting is safe for every string exactly where the lexer is outside quotes and escapes. */
  lemma QuotingIsSafeIff(before: string)
    ensures var l := Lex(START, before);
            (forall s :: Lex(START, before + ShellQuote(s)) == Appended(l, s)) <==> l.mode == Plain
  {
    var l := Lex(START, before);
    LexKeepsState(START, before);
    forall s ensures Lex(START, before + ShellQuote(s)) == Lex(l, ShellQuote(s)) {
      LexConcat(START, before, ShellQuote(s));
    }
    if l.mode == Plain {
      forall s ensures Lex(l, ShellQuote(s)) == Appended(l, s) { QuoteRoundTrip(l, s); }
    } else {
      QuotedBlank(l);
    }
  }

  lemma QuotedBlank(l: Lexer)
    requires l.mode != Plain && IsState(l)
    ensures Lex(l, ShellQuote(" ")) != Appended(l, " ")
  {
    hide Lex;
    var l1 := Step(l, '\'');
    var l2 := Step(l1, ' ');
    QuotedBlankText();
    LexConcat(l, "'", " " + "'");
    LexConcat(l1, " ", "'");
    LexOne(l, '\'');
    LexOne(l1, ' ');
    LexOne(l2, '\'');
    var before := if l.word.Some? then |l.word.value| else 0;
    assert |Appended(l, " ").word.value| == before + 1;
  }

  lemma QuotedBlankText()
    ensures ShellQuote(" ") == "'" + (" " + "'")
  {
    assert " "[1..] == "" && Escape(" ") == " " + Escape("");
  }

  // --------------------------------------------------------------- templates

  datatype TemplateData = TemplateData(url: string, text: string, profile: string, match_: string, slug: string)

  function ShellQuoted(d: TemplateData): TemplateData {
    d.(url := ShellQuote(d.url), text := ShellQuote(d.text), match_ := ShellQuote(d.match_))
  }

  /** A command template without control structures: literal text and references to request values. */
  datatype Part = Literal(text: string) | Url | Text | Match | Profile | Slug

  function FieldOf(p: Part, d: TemplateData): string {
    match p
    case Literal(text) => text
    case Url => d.url
    case Text => d.text
    case Match => d.match_
    case Profile => d.profile
    case Slug => d.slug
  }

  function Render(parts: seq<Part>, d: TemplateData): string {
    if parts == [] then "" else FieldOf(parts[0], d) + Render(parts[1..], d)
  }

  predicate IsQuotedField(p: Part) {
    p.Url? || p.Text? || p.Match?
  }

  /** Every reference is to a value the client controls; these two are put into the command as they come. */
  predicate IsBareField(p: Part) {
    p.Profile? || p.Slug?
  }

  /** Where the lexer should be after a part: a value is literal text, whatever it is. */
  function After(l: Lexer, p: Part, d: TemplateData): Lexer {
    if p.Literal? then Lex(l, p.text) else Appended(l, FieldOf(p, d))
  }

  /** How the command reads when every value is taken as literal text. */
  function Intended(l: Lexer, parts: seq<Part>, d: TemplateData): Lexer
    decreases parts
  {
    if parts == [] then l else Intended(After(l, parts[0], d), parts[1..], d)
  }

  /** The shell takes every value of the rendered command as literal text. */
  predicate ReadsLiterally(l: Lexer, parts: seq<Part>, d: TemplateData)
    decreases parts
  {
    parts == [] || (
      && Lex(l, FieldOf(parts[0], ShellQuoted(d))) == After(l, parts[0], d)
      && ReadsLiterally(After(l, parts[0], d), parts[1..], d))
  }

  /** Then it reads the whole command as intended. */
  lemma {:induction false} RenderedAsIntended(l: Lexer, parts: seq<Part>, d: TemplateData)
    requires ReadsLiterally(l, parts, d)
    ensures Lex(l, Render(parts, ShellQuoted(d))) == Intended(l, parts, d)
    decreases parts
  {
    if parts != [] {
      LexConcat(l, FieldOf(parts[0], ShellQuoted(d)), Render(parts[1..], ShellQuoted(d)));
      RenderedAsIntended(After(l, parts[0], d), parts[1..], d);
    }
  }

  /** How the character after s is quoted. */
  function ModeAfter(mode: Mode, s: string): Mode {
    Lex(Lexer([], Some(""), mode), s).mode
  }

  lemma {:induction false} ModeIgnoresWords(l: Lexer, m: Lexer, s: string)
    requires l.mode == m.mode
    ensures Lex(l, s).mode == Lex(m, s).mode
    decreases s
  {
    if s != "" {
      ModeIgnoresWords(Step(l, s[0]), Step(m, s[0]), s[1..]);
    }
  }

  /** The template refers to values only outside quotes and escapes. */
  predicate RefersOutsideQuotes(mode: Mode, parts: seq<Part>)
    decreases parts
  {
    parts == [] || (
      if parts[0].Literal? then RefersOutsideQuotes(ModeAfter(mode, parts[0].text), parts[1..])
      else mode == Plain && RefersOutsideQuotes(mode, parts[1..]))
  }

  // ------------------------------------------------------- safe for one request

  /** A character that stands for itself outside quotes. */
  predicate IsOrdinary(c: char) {
    c !in " \t\n'\"\\" && !IsSpecial(c)
  }

  /** No character needs quoting, and an empty value does not stand alone. */
  predicate IsBareWord(l: Lexer, s: string) {
    (s != "" || l.word.Some?) && forall c :: c in s ==> IsOrdinary(c)
  }

  function TextSize(tokens: seq<Token>): nat {
    if tokens == [] then 0
    else
      var last := tokens[|tokens| - 1];
      TextSize(tokens[..|tokens| - 1]) + if last.Word? then |last.text| else 0
  }

  /** How much literal text was read. */
  function Size(l: Lexer): nat {
    TextSize(l.tokens) + (if l.word.Some? then |l.word.value| else 0) + if l.mode == DoubleEscaped then 1 else 0
  }

  /** A character adds at most itself, and nothing outside quotes where it has to be quoted. */
  lemma StepSize(l: Lexer, c: char)
    ensures Size(Step(l, c)) <= Size(l) + 1
    ensures l.mode == Plain && !IsOrdinary(c) ==> Size(Step(l, c)) <= Size(l)
  {
    hide TextSize;
    TextSizeAfter(l.tokens, Special(c));
    if l.word.Some? {
      var word := Word(l.word.value);
      TextSizeAfter(l.tokens, word);
      TextSizeAfter(l.tokens + [word], Special(c));
    }
  }

  lemma TextSizeAfter(tokens: seq<Token>, t: Token)
    ensures TextSize(tokens + [t]) == TextSize(tokens) + if t.Word? then |t.text| else 0
  {
    assert (tokens + [t])[..|tokens|] == tokens;
  }

  lemma {:induction false} LexSize(l: Lexer, s: string)
    ensures Size(Lex(l, s)) <= Size(l) + |s|
    decreases s
  {
    if s != "" {
      StepSize(l, s[0]);
      LexSize(Step(l, s[0]), s[1..]);
    }
  }

  /** Outside quotes a bare value reads as literal text exactly when it is such a word. */
  lemma {:induction false} BareIff(l: Lexer, s: string)
    requires l.mode == Plain
    ensures Lex(l, s) == Appended(l, s) <==> IsBareWord(l, s)
    decreases s
  {
    hide Size;
    if s == "" {
      if l.word.Some? { assert l.word.value + "" == l.word.value; }
    } else if IsOrdinary(s[0]) {
      var next := Step(l, s[0]);
      BareIff(next, s[1..]);
      assert s == [s[0]] + s[1..];
      AppendedTwice(l, [s[0]], s[1..]);
      assert next == Appended(l, [s[0]]);
    } else {
      StepSize(l, s[0]);
      LexSize(Step(l, s[0]), s[1..]);
      assert Size(Appended(l, s)) == Size(l) + |s| by { AppendedSize(l, s); }
    }
  }

  lemma AppendedTwice(l: Lexer, a: string, b: string)
    ensures Appended(Appended(l, a), b) == Appended(l, a + b)
  {
    if l.word.Some? { assert (l.word.value + a) + b == l.word.value + (a + b); }
  }

  lemma AppendedSize(l: Lexer, s: string)
    ensures Size(Appended(l, s)) == Size(l) + |s|
  {
  }

  predicate BareValuesFit(l: Lexer, parts: seq<Part>, d: TemplateData)
    decreases parts
  {
    parts == [] || (
      && (IsBareField(parts[0]) ==> IsBareWord(l, FieldOf(parts[0], d)))
      && BareValuesFit(After(l, parts[0], d), parts[1..], d))
  }

  /**
   A template that refers to values only outside quotes is rendered safely for
   a request exactly when the profile and the slug it uses need no quoting.
   */
  lemma {:induction false} ReadsLiterallyIff(l: Lexer, parts: seq<Part>, d: TemplateData)
    requires RefersOutsideQuotes(l.mode, parts)
    ensures ReadsLiterally(l, parts, d) <==> BareValuesFit(l, parts, d)
    decreases parts
  {
    hide Lex, Escape, IsBareWord;
    if parts != [] {
      var p := parts[0];
      if p.Literal? {
        ModeIgnoresWords(l, Lexer([], Some(""), l.mode), p.text);
      } else if IsBareField(p) {
        BareIff(l, FieldOf(p, d));
      } else {
        QuoteRoundTrip(l, FieldOf(p, d));
      }
      ReadsLiterallyIff(After(l, p, d), parts[1..], d);
    }
  }

  // ----------------------------------------------------- safe for every request

  /** All values are referred to outside quotes, and none of them bare. */
  predicate IsSafe(mode: Mode, parts: seq<Part>) {
    RefersOutsideQuotes(mode, parts) && forall p :: p in parts ==> !IsBareField(p)
  }

  lemma {:induction false} SafeReadsLiterally(l: Lexer, parts: seq<Part>, d: TemplateData)
    requires IsSafe(l.mode, parts)
    ensures BareValuesFit(l, parts, d)
    decreases parts
  {
    hide Lex;
    if parts != [] {
      if parts[0].Literal? { ModeIgnoresWords(l, Lexer([], Some(""), l.mode), parts[0].text); }
      SafeReadsLiterally(After(l, parts[0], d), parts[1..], d);
    }
  }

  /** Tokens only grow in number, by at most two a character. */
  lemma {:induction false} LexTokens(l: Lexer, s: string)
    ensures |l.tokens| <= |Lex(l, s).tokens| <= |l.tokens| + 2 * |s|
    decreases s
  {
    if s != "" {
      LexTokens(Step(l, s[0]), s[1..]);
    }
  }

  function LiteralSize(parts: seq<Part>): nat {
    if parts == [] then 0
    else (if parts[0].Literal? then |parts[0].text| else 0) + LiteralSize(parts[1..])
  }

  lemma {:induction false} IntendedTokens(l: Lexer, parts: seq<Part>, d: TemplateData)
    ensures |Intended(l, parts, d).tokens| <= |l.tokens| + 2 * LiteralSize(parts)
    decreases parts
  {
    if parts != [] {
      if parts[0].Literal? { LexTokens(l, parts[0].text); }
      IntendedTokens(After(l, parts[0], d), parts[1..], d);
    }
  }

  function Semicolons(n: nat): string {
    seq(n, _ => ';')
  }

  lemma {:induction false} SemicolonsAreTokens(l: Lexer, n: nat)
    requires l.mode == Plain
    ensures |Lex(l, Semicolons(n)).tokens| >= |l.tokens| + n
    decreases n
  {
    if n > 0 {
      assert Semicolons(n)[1..] == Semicolons(n - 1);
      SemicolonsAreTokens(Step(l, ';'), n - 1);
    }
  }

  lemma {:induction false} NothingToEscape(s: string)
    requires '\'' !in s
    ensures Escape(s) == s
  {
    if s != "" { NothingToEscape(s[1..]); }
  }

  /** What takes the lexer from inside quotes, or from behind a backslash, to the outside. */
  function Leaving(mode: Mode, quoted: bool): string {
    match mode
    case Plain => ""
    case Escaped => if quoted then "" else ";"
    case Single => if quoted then "" else "'"
    case Double => "\""
    case DoubleEscaped => if quoted then "\"" else "\"\""
  }

  /** A value that is not taken literally where it is quoted too often, or not at all. */
  lemma ValueBecomesTokens(l: Lexer, quoted: bool, n: nat)
    requires IsState(l) && (quoted ==> l.mode != Plain)
    ensures var v := Leaving(l.mode, quoted) + Semicolons(n);
            |Lex(l, if quoted then ShellQuote(v) else v).tokens| >= |l.tokens| + n
  {
    var key, v := Leaving(l.mode, quoted), Leaving(l.mode, quoted) + Semicolons(n);
    var head, tail := if quoted then "'" + key else key, if quoted then "'" else "";
    if quoted { NothingToEscape(v); }
    assert (if quoted then ShellQuote(v) else v) == head + (Semicolons(n) + tail);
    LexConcat(l, head, Semicolons(n) + tail);
    var m := Lex(l, head);
    assert m.mode == Plain by { LeavesQuotes(l, quoted); }
    LexTokens(l, head);
    LexConcat(m, Semicolons(n), tail);
    SemicolonsAreTokens(m, n);
    LexTokens(Lex(m, Semicolons(n)), tail);
  }

  lemma LeavesQuotes(l: Lexer, quoted: bool)
    requires IsState(l) && (quoted ==> l.mode != Plain)
    ensures Lex(l, if quoted then "'" + Leaving(l.mode, quoted) else Leaving(l.mode, quoted)).mode == Plain
  {
    var s := if quoted then "'" + Leaving(l.mode, quoted) else Leaving(l.mode, quoted);
    if |s| == 1 {
      assert s == [s[0]];
    } else if |s| == 2 {
      assert s == [s[0]] + [s[1]];
      LexConcat(l, [s[0]], [s[1]]);
      LexOne(l, s[0]);
      LexOne(Step(l, s[0]), s[1]);
    }
  }

  /** Request values that show a template to be unsafe. */
  function BadData(mode: Mode, parts: seq<Part>, n: nat): TemplateData
    decreases parts
  {
    if parts == [] then TemplateData("", "", "", "", "")
    else if parts[0].Literal? then BadData(ModeAfter(mode, parts[0].text), parts[1..], n)
    else if IsQuotedField(parts[0]) && mode == Plain then BadData(mode, parts[1..], n)
    else
      var v := Leaving(mode, IsQuotedField(parts[0])) + Semicolons(n);
      TemplateData(v, v, v, v, v)
  }

  lemma {:induction false} UnsafeGivesTokens(l: Lexer, parts: seq<Part>, n: nat)
    requires IsState(l) && !IsSafe(l.mode, parts)
    ensures |Lex(l, Render(parts, ShellQuoted(BadData(l.mode, parts, n)))).tokens| >= |l.tokens| + n
    decreases parts
  {
    hide Lex, Escape, Leaving;
    if parts != [] {
      var p, d := parts[0], BadData(l.mode, parts, n);
      var field := FieldOf(p, ShellQuoted(d));
      var rest := Render(parts[1..], ShellQuoted(d));
      LexConcat(l, field, rest);
      LexTokens(l, field);
      LexKeepsState(l, field);
      LexTokens(Lex(l, field), rest);
      if p.Literal? {
        ModeIgnoresWords(l, Lexer([], Some(""), l.mode), p.text);
        UnsafeGivesTokens(Lex(l, field), parts[1..], n);
      } else if IsQuotedField(p) && l.mode == Plain {
        QuoteRoundTrip(l, FieldOf(p, d));
        UnsafeGivesTokens(Lex(l, field), parts[1..], n);
      } else {
        ValueBecomesTokens(l, IsQuotedField(p), n);
      }
    }
  }

  /**
   A template is rendered as intended for every request exactly when it refers
   to values outside quotes only, and to neither the profile nor the slug.
   */
  lemma SafeForAllIff(l: Lexer, parts: seq<Part>)
    requires IsState(l)
    ensures (forall d :: ReadsLiterally(l, parts, d)) <==> IsSafe(l.mode, parts)
    ensures (forall d :: Lex(l, Render(parts, ShellQuoted(d))) == Intended(l, parts, d)) <==> IsSafe(l.mode, parts)
  {
    hide Lex, Intended, Render, ReadsLiterally;
    forall d | ReadsLiterally(l, parts, d) ensures Lex(l, Render(parts, ShellQuoted(d))) == Intended(l, parts, d) {
      RenderedAsIntended(l, parts, d);
    }
    if IsSafe(l.mode, parts) {
      forall d ensures ReadsLiterally(l, parts, d) {
        SafeReadsLiterally(l, parts, d);
        ReadsLiterallyIff(l, parts, d);
      }
      forall d ensures Lex(l, Render(parts, ShellQuoted(d))) == Intended(l, parts, d) {
        assert ReadsLiterally(l, parts, d);
      }
    } else {
      var n := 2 * LiteralSize(parts) + 1;
      var d := BadData(l.mode, parts, n);
      UnsafeGivesTokens(l, parts, n);
      IntendedTokens(l, parts, d);
      assert Lex(l, Render(parts, ShellQuoted(d))) != Intended(l, parts, d);
      assert !ReadsLiterally(l, parts, d);
    }
  }

  // ------------------------------------------------------- the builtin template

  const OPTIONS := ("uinit" + " ") + (("--auto-resume" + " ") + ("--profile" + " "))

  /** The command of the builtin scoring action. */
  const SCORE_TEMPLATE: seq<Part> := [Literal(OPTIONS), Profile, Literal(" "), Url]

  const AFTER_OPTIONS := Lexer([Word("uinit"), Word("--auto-resume"), Word("--profile")], None, Plain)

  lemma WordAndBlank(l: Lexer, s: string)
    requires l.mode == Plain && l.word == None && IsBareWord(l, s)
    ensures Lex(l, s + " ") == l.(tokens := l.tokens + [Word(s)])
  {
    BareIff(l, s);
    LexConcat(l, s, " ");
    LexOne(Appended(l, s), ' ');
  }

  lemma OptionsRead()
    ensures Lex(START, OPTIONS) == AFTER_OPTIONS
  {
    hide Lex, IsBareWord;
    var l1 := START.(tokens := [Word("uinit")]);
    var l2 := START.(tokens := [Word("uinit"), Word("--auto-resume")]);
    LexConcat(START, "uinit" + " ", ("--auto-resume" + " ") + ("--profile" + " "));
    LexConcat(l1, "--auto-resume" + " ", "--profile" + " ");
    OptionsAreWords();
    WordAndBlank(START, "uinit");
    WordAndBlank(l1, "--auto-resume");
    WordAndBlank(l2, "--profile");
    assert START.tokens + [Word("uinit")] == l1.tokens && l1.tokens + [Word("--auto-resume")] == l2.tokens;
    assert l2.tokens + [Word("--profile")] == AFTER_OPTIONS.tokens;
  }

  lemma OptionsAreWords()
    ensures forall l :: IsBareWord(l, "uinit") && IsBareWord(l, "--auto-resume") && IsBareWord(l, "--profile")
  {
    forall c | 'a' <= c <= 'z' || c == '-' ensures IsOrdinary(c) {}
    hide IsOrdinary;
  }

  lemma ScoreTemplateRefersOutsideQuotes()
    ensures RefersOutsideQuotes(Plain, SCORE_TEMPLATE)
  {
    hide Lex;
    OptionsRead();
    ModeIgnoresWords(START, Lexer([], Some(""), Plain), OPTIONS);
    LexOne(Lexer([], Some(""), Plain), ' ');
    PartsAfterOptions();
  }

  lemma PartsAfterOptions()
    ensures SCORE_TEMPLATE[1..] == [Profile, Literal(" "), Url]
    ensures [Profile, Literal(" "), Url][1..] == [Literal(" "), Url]
    ensures [Literal(" "), Url][1..] == [Url]
  {
  }

  /** It reads as intended exactly for profiles that need no quoting. */
  lemma ScoreTemplateIff(d: TemplateData)
    ensures ReadsLiterally(START, SCORE_TEMPLATE, d) <==>
            d.profile != "" && forall c :: c in d.profile ==> IsOrdinary(c)
  {
    hide Lex, Appended;
    OptionsRead();
    ScoreTemplateRefersOutsideQuotes();
    ReadsLiterallyIff(START, SCORE_TEMPLATE, d);
    PartsAfterOptions();
  }

  /** With one quotation mark for a profile, the text of the URL is read as shell syntax. */
  lemma ScoreTemplateBreaks()
    ensures var d := TemplateData(";", "", "'", "", "");
            Special(';') in Lex(START, Render(SCORE_TEMPLATE, ShellQuoted(d))).tokens
            && Special(';') !in Intended(START, SCORE_TEMPLATE, d).tokens
  {
    hide Lex, Render, Intended, ShellQuoted;
    var d := TemplateData(";", "", "'", "", "");
    BrokenCommand(d);
    BrokenReading("'" + (" " + ("'" + (";" + "'"))));
    IntendedReading(d);
  }

  lemma BrokenReading(values: string)
    requires values == "'" + (" " + ("'" + (";" + "'")))
    ensures Special(';') in Lex(START, OPTIONS + values).tokens
  {
    hide Lex;
    var l1 := Step(AFTER_OPTIONS, '\'');
    OptionsRead();
    LexConcat(START, OPTIONS, values);
    LexConcat(AFTER_OPTIONS, "'", " " + ("'" + (";" + "'")));
    LexOne(AFTER_OPTIONS, '\'');
    UrlOutside(l1);
  }

  lemma IntendedReading(d: TemplateData)
    requires d.profile == "'"
    ensures Intended(START, SCORE_TEMPLATE, d).tokens == AFTER_OPTIONS.tokens + [Word("'")]
  {
    hide Lex;
    OptionsRead();
    PartsAfterOptions();
    LexOne(Appended(AFTER_OPTIONS, "'"), ' ');
  }

  lemma BrokenCommand(d: TemplateData)
    requires d.url == ";" && d.profile == "'"
    ensures Render(SCORE_TEMPLATE, ShellQuoted(d)) == OPTIONS + ("'" + (" " + ("'" + (";" + "'"))))
  {
    NothingToEscape(";");
    PartsAfterOptions();
    var quoted := ShellQuoted(d);
    assert quoted.url == "'" + (";" + "'") && quoted.profile == "'";
    hide ShellQuoted;
    assert Render([], quoted) == "" && Render([Url], quoted) == quoted.url + "";
    assert Render([Literal(" "), Url], quoted) == " " + Render([Url], quoted);
    assert Render([Profile, Literal(" "), Url], quoted) == "'" + Render([Literal(" "), Url], quoted);
  }

  lemma UrlOutside(l: Lexer)
    requires l.mode == Single && l.word == Some("")
    ensures Lex(l, " " + ("'" + (";" + "'"))).tokens == l.tokens + [Word(" "), Special(';')]
  {
    hide Lex;
    var l1 := Step(l, ' ');
    var l2 := Step(l1, '\'');
    var l3 := Step(l2, ';');
    LexConcat(l, " ", "'" + (";" + "'"));
    LexConcat(l1, "'", ";" + "'");
    LexConcat(l2, ";", "'");
    LexOne(l, ' ');
    LexOne(l1, '\'');
    LexOne(l2, ';');
    LexOne(l3, '\'');
    assert "" + " " == " ";
  }
}
