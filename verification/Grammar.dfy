/** The language that the shell's parser accepts (lab 1, parse.c), as a grammar that does not mention the
    parser: a program, then pipes into further programs and redirections in any order, each kind of
    redirection at most once, and maybe an ampersand at the end. */
module Grammar {
  import opened Common
  import opened Tokens

  // ----- the grammar -----

  predicate WordChar(c: char) {
    c !in " \t\n\r\U{b}\U{c}" && c != '|' && c != '&' && c != '<' && c != '>' && c != '\0'
  }

  predicate FileChar(c: char) {
    || '0' <= c <= '9' || 'A' <= c <= 'Z' || 'a' <= c <= 'z'
    || c == '_' || c == '-' || c == '.' || c == ',' || c == '/' || c == '~' || c == '+'
  }

  predicate IsArgument(w: string) { w != "" && forall i | 0 <= i < |w| :: WordChar(w[i]) }
  predicate IsFileName(f: string) { f != "" && forall i | 0 <= i < |f| :: FileChar(f[i]) }
  predicate IsProgram(p: seq<string>) { p != [] && forall i | 0 <= i < |p| :: IsArgument(p[i]) }

  /** What can follow the first program. */
  datatype Item = Pipe(pgm: seq<string>) | In(file: string) | Out(file: string)

  predicate ItemOk(item: Item) {
    match item
    case Pipe(p) => IsProgram(p)
    case In(f) => IsFileName(f)
    case Out(f) => IsFileName(f)
  }

  predicate ItemsOk(items: seq<Item>) { forall i | 0 <= i < |items| :: ItemOk(items[i]) }

  function ItemText(item: Item): (toks: seq<string>) {
    match item
    case Pipe(p) => ["|"] + p
    case In(f) => ["<", f]
    case Out(f) => [">", f]
  }

  function ItemsText(items: seq<Item>): (toks: seq<string>) {
    if items == [] then [] else ItemText(items[0]) + ItemsText(items[1..])
  }

  /** The files read from, the files written to, and the programs, in their order. */
  function Ins(items: seq<Item>): (files: seq<string>) {
    if items == [] then [] else (if items[0].In? then [items[0].file] else []) + Ins(items[1..])
  }

  function Outs(items: seq<Item>): (files: seq<string>) {
    if items == [] then [] else (if items[0].Out? then [items[0].file] else []) + Outs(items[1..])
  }

  function Pipes(items: seq<Item>): (pgms: seq<seq<string>>) {
    if items == [] then [] else (if items[0].Pipe? then [items[0].pgm] else []) + Pipes(items[1..])
  }

  datatype Line = Line(first: seq<string>, items: seq<Item>)

  predicate LineOk(l: Line) {
    IsProgram(l.first) && ItemsOk(l.items) && |Ins(l.items)| <= 1 && |Outs(l.items)| <= 1
  }

  function LineText(l: Line): (toks: seq<string>) { l.first + ItemsText(l.items) }

  function Backwards<T>(s: seq<T>): (r: seq<T>)
    ensures |r| == |s| && forall i | 0 <= i < |s| :: r[i] == s[|s| - 1 - i]
  {
    if s == [] then [] else Backwards(s[1..]) + [s[0]]
  }

  function FirstOf(files: seq<string>): (r: Option<string>) { if files == [] then None else Some(files[0]) }

  /** The record that the shell works from: programs from the last to the first. */
  function Meaning(l: Line, background: bool): (c: Command) {
    Command(Backwards([l.first] + Pipes(l.items)), FirstOf(Ins(l.items)), FirstOf(Outs(l.items)), background)
  }

  function Ampersand(background: bool): (toks: seq<string>) { if background then ["&"] else [] }

  // ----- the classes of characters agree -----

  lemma {:induction false} SameChars(c: char)
    ensures WordChar(c) == IsPlain(c) && FileChar(c) == IsIdChar(c)
  {
    assert c in "_-.,/~+" <==> c == '_' || c == '-' || c == '.' || c == ',' || c == '/' || c == '~' || c == '+';
    assert c in " \t\n\r\U{b}\U{c}" <==>
           c == ' ' || c == '\t' || c == '\n' || c == '\r' || c == '\U{b}' || c == '\U{c}';
  }

  lemma {:induction false} SameWords(w: string)
    ensures IsArgument(w) == IsWord(w) && IsFileName(w) == (w != "" && IsIdentifier(w))
  {
    hide WordChar, IsPlain, FileChar, IsIdChar;
    forall c: char ensures WordChar(c) == IsPlain(c) && FileChar(c) == IsIdChar(c) { SameChars(c); }
  }

  lemma {:induction false} SamePrograms(p: seq<string>)
    ensures IsProgram(p) <==> p != [] && Words(p)
  {
    hide IsArgument, IsWord;
    forall i | 0 <= i < |p| ensures IsArgument(p[i]) == IsWord(p[i]) { SameWords(p[i]); }
  }

  // ----- what the grammar generates is parsed -----

  /** The files of these items may still be named. */
  predicate Room(c: Command, items: seq<Item>) {
    && (Ins(items) != [] ==> c.rstdin.None? && |Ins(items)| == 1)
    && (Outs(items) != [] ==> c.rstdout.None? && |Outs(items)| == 1)
  }

  function Or(r: Option<string>, s: Option<string>): Option<string> { if r.Some? then r else s }

  function With(c: Command, items: seq<Item>): (c': Command) {
    Command(Backwards(Pipes(items)) + c.pgms, Or(FirstOf(Ins(items)), c.rstdin), Or(FirstOf(Outs(items)), c.rstdout),
            c.background)
  }

  lemma {:induction false} OneItem(c: Command, item: Item)
    ensures With(c, [item]) == match item {
              case Pipe(p) => c.(pgms := [p] + c.pgms)
              case In(f) => c.(rstdin := Some(f))
              case Out(f) => c.(rstdout := Some(f))
            }
    ensures Room(c, [item]) <==> (item.In? ==> c.rstdin.None?) && (item.Out? ==> c.rstdout.None?)
  {
    assert [item][0] == item && [item][1..] == [];
    assert Ins([]) == [] && Outs([]) == [] && Pipes([]) == [];
    assert Ins([item]) == if item.In? then [item.file] else [];
    assert Outs([item]) == if item.Out? then [item.file] else [];
    assert Pipes([item]) == if item.Pipe? then [item.pgm] else [];
    assert [] + c.pgms == c.pgms;
  }

  lemma {:induction false} ItemParsed(item: Item, rest: seq<string>, c: Command)
    requires ItemOk(item) && Room(c, [item]) && (rest != [] ==> IsSpecToken(rest[0]))
    ensures ParseRest(ItemText(item) + rest, c) == ParseRest(rest, With(c, [item]))
  {
    hide IsProgram, IsFileName, IsIdentifier, IsSpecToken, Words, With, Room;
    OneItem(c, item);
    var toks := ItemText(item) + rest;
    match item
    case Pipe(p) =>
      SamePrograms(p);
      assert toks[1..] == p + rest;
      ParseOnePgm(p, rest, c);
    case In(f) =>
      SameWords(f);
      assert toks[2..] == rest;
    case Out(f) =>
      SameWords(f);
      assert toks[2..] == rest;
  }

  lemma {:induction false} WithStep(c: Command, items: seq<Item>)
    requires items != [] && Room(c, items)
    ensures Room(c, [items[0]]) && Room(With(c, [items[0]]), items[1..])
    ensures With(With(c, [items[0]]), items[1..]) == With(c, items)
  {
    hide Ins, Outs, Pipes, Backwards;
    var item := items[0];
    OneItem(c, item);
    Heads(items);
    if item.Pipe? {
      BackwardsCons(item.pgm, Pipes(items[1..]));
      assert Backwards(Pipes(items)) + c.pgms == Backwards(Pipes(items[1..])) + ([item.pgm] + c.pgms);
    }
  }

  lemma {:induction false} Heads(items: seq<Item>)
    requires items != []
    ensures Ins(items) == (if items[0].In? then [items[0].file] + Ins(items[1..]) else Ins(items[1..]))
    ensures Outs(items) == (if items[0].Out? then [items[0].file] + Outs(items[1..]) else Outs(items[1..]))
    ensures Pipes(items) == (if items[0].Pipe? then [items[0].pgm] + Pipes(items[1..]) else Pipes(items[1..]))
  {
  }

  lemma {:induction false} BackwardsCons<T>(x: T, s: seq<T>)
    ensures Backwards([x] + s) == Backwards(s) + [x]
  {
    assert ([x] + s)[1..] == s;
  }

  lemma {:induction false} TextStarts(items: seq<Item>, tail: seq<string>)
    requires tail != [] ==> IsSpecToken(tail[0])
    ensures ItemsText(items) + tail != [] ==> IsSpecToken((ItemsText(items) + tail)[0])
  {
    if items == [] { assert ItemsText(items) + tail == tail; }
  }

  lemma {:induction false} ItemsParsed(items: seq<Item>, tail: seq<string>, c: Command)
    requires ItemsOk(items) && Room(c, items) && (tail != [] ==> IsSpecToken(tail[0]))
    ensures ParseRest(ItemsText(items) + tail, c) == ParseRest(tail, With(c, items))
    decreases |items|
  {
    hide ParseRest, IsSpecToken, ItemOk, ItemText, Room, With;
    if items == [] {
      assert ItemsText(items) + tail == tail;
      WithNothing(c);
    } else {
      var rest := ItemsText(items[1..]) + tail;
      assert ItemsText(items) + tail == ItemText(items[0]) + rest;
      TextStarts(items[1..], tail);
      WithStep(c, items);
      ItemParsed(items[0], rest, c);
      ItemsParsed(items[1..], tail, With(c, [items[0]]));
    }
  }

  lemma {:induction false} WithNothing(c: Command)
    ensures With(c, []) == c && Room(c, [])
  {
    assert [] + c.pgms == c.pgms;
  }

  /** A line of the grammar and whatever special token follows it. */
  lemma {:induction false} LineParsed(l: Line, tail: seq<string>)
    requires LineOk(l) && (tail != [] ==> IsSpecToken(tail[0]))
    ensures ParseCmd(LineText(l) + tail, EMPTY) == ParseRest(tail, Meaning(l, false))
  {
    hide ParseRest, IsSpecToken, ItemsOk, ItemsText, IsProgram, Words, Room, With, Meaning;
    var rest := ItemsText(l.items) + tail;
    assert LineText(l) + tail == l.first + rest;
    SamePrograms(l.first);
    TextStarts(l.items, tail);
    ParseOnePgm(l.first, rest, EMPTY);
    FirstWith(l);
    ItemsParsed(l.items, tail, EMPTY.(pgms := [l.first] + EMPTY.pgms));
  }

  // ----- what is parsed is in the grammar -----

  /** Where the parser stops: at the end, at an ampersand at the end, or at a redirection at the end. */
  ghost predicate Stop(tail: seq<string>, c: Command) {
    || tail == [] || tail == ["&"] || (tail == ["<"] && c.rstdin.None?) || (tail == [">"] && c.rstdout.None?)
  }

  lemma {:induction false} RestRead(toks: seq<string>, c: Command) returns (items: seq<Item>, tail: seq<string>)
    requires WellFormedTokens(toks) && !ParseRest(toks, c).Bad?
    ensures ItemsOk(items) && Room(c, items) && toks == ItemsText(items) + tail && Stop(tail, With(c, items))
    decreases |toks|
  {
    hide IsFileName, IsProgram, IsIdentifier, Words, IsWord, IsSpecToken;
    if toks == [] || |toks| == 1 {
      items, tail := [], toks;
      WithNothing(c);
      assert ItemsText(items) + tail == toks;
      assert toks != [] ==> toks[1..] == [] && ParseCmd([], c).Bad?;
    } else {
      var item, rest := FirstItem(toks, c);
      var more;
      more, tail := RestRead(rest, With(c, [item]));
      items := [item] + more;
      Prepended(item, more, tail, c);
    }
  }

  lemma {:induction false} FirstItem(toks: seq<string>, c: Command) returns (item: Item, rest: seq<string>)
    requires WellFormedTokens(toks) && |toks| > 1 && !ParseRest(toks, c).Bad?
    ensures ItemOk(item) && Room(c, [item]) && toks == ItemText(item) + rest && |rest| < |toks|
    ensures WellFormedTokens(rest) && !ParseRest(rest, With(c, [item])).Bad?
  {
    hide IsFileName, IsProgram, IsIdentifier, Words, IsWord, IsSpecToken, With, Room;
    if toks[0] == "|" {
      var k := LeadingWords(toks[1..]);
      LeadingWordsMeaning(toks[1..]);
      item, rest := Pipe(toks[1..][..k]), toks[1..][k..];
      SamePrograms(item.pgm);
      assert toks[1..] == item.pgm + rest;
    } else {
      rest := toks[2..];
      item := if toks[0] == "<" then In(toks[1]) else Out(toks[1]);
      SameWords(toks[1]);
      TokenNotEmpty(toks[1]);
    }
    assert toks == ItemText(item) + rest;
    OneItem(c, item);
  }

  lemma {:induction false} TokenNotEmpty(tok: string)
    requires IsWord(tok) || IsSpecToken(tok)
    ensures tok != ""
  {
  }

  lemma {:induction false} Prepended(item: Item, more: seq<Item>, tail: seq<string>, c: Command)
    requires ItemOk(item) && ItemsOk(more) && Room(c, [item]) && Room(With(c, [item]), more)
    ensures ItemsOk([item] + more) && Room(c, [item] + more)
    ensures With(c, [item] + more) == With(With(c, [item]), more)
    ensures ItemsText([item] + more) + tail == ItemText(item) + (ItemsText(more) + tail)
  {
    hide ItemOk, ItemText, Room, With;
    var items := [item] + more;
    assert items[1..] == more && items[0] == item;
    RoomBoth(c, items);
    WithStep(c, items);
  }

  lemma {:induction false} RoomBoth(c: Command, items: seq<Item>)
    requires items != [] && Room(c, [items[0]]) && Room(With(c, [items[0]]), items[1..])
    ensures Room(c, items)
  {
    hide Ins, Outs, Pipes, Backwards;
    OneItem(c, items[0]);
    Heads(items);
  }

  lemma {:induction false} LineRead(toks: seq<string>) returns (l: Line, tail: seq<string>)
    requires WellFormedTokens(toks) && !ParseCmd(toks, EMPTY).Bad?
    ensures LineOk(l) && toks == LineText(l) + tail && Stop(tail, Meaning(l, false))
  {
    hide ParseRest, IsSpecToken, ItemsOk, ItemsText, IsProgram, Words, LeadingWords, Room, With, Meaning;
    var k := LeadingWords(toks);
    LeadingWordsMeaning(toks);
    var first := toks[..k];
    SamePrograms(first);
    var items;
    items, tail := RestRead(toks[k..], EMPTY.(pgms := [first] + EMPTY.pgms));
    l := Line(first, items);
    assert toks == first + toks[k..] == LineText(l) + tail;
    FirstWith(l);
  }

  lemma {:induction false} FirstWith(l: Line)
    ensures var c := EMPTY.(pgms := [l.first] + EMPTY.pgms);
      && (Room(c, l.items) <==> |Ins(l.items)| <= 1 && |Outs(l.items)| <= 1) && With(c, l.items) == Meaning(l, false)
  {
    hide Ins, Outs, Pipes, Backwards;
    BackwardsCons(l.first, Pipes(l.items));
    assert [l.first] + EMPTY.pgms == [l.first];
  }

  // ----- the language -----

  /** A text stands for its tokens. */
  lemma {:induction false} TokensSpelled(s: string)
    requires NulFree(s)
    ensures Spells(s, Tokenize(s)) && WellFormedTokens(Tokenize(s))
    decreases |s|
  {
    TokenizeWellFormed(s);
    var i := SkipSpaces(s);
    match NextSpan(s) {
      case None => assert AllSpaces(s);
      case Some(Span(k, m)) =>
        TokensSpelled(s[m..]);
        var toks := Tokenize(s);
        assert toks[0] == s[k..m] && toks[1..] == Tokenize(s[m..]);
        assert AllSpaces(s[..k]);
        SpanEnds(s, k, m);
        assert Spells(s, toks);
    }
  }

  lemma {:induction false} SpanEnds(s: string, k: nat, m: nat)
    requires NextSpan(s) == Some(Span(k, m))
    ensures IsWord(s[k..m]) ==> m == |s| || !IsPlain(s[m])
  {
    if !IsSpec(s[k]) {
      var n := WordLength(s[k..]);
      if m < |s| { assert s[k..][n] == s[m]; }
    } else {
      assert s[k..m][0] == s[k] && !IsPlain(s[k]);
    }
  }

  ghost predicate Accepts(line: string, c: Command, l: Line) {
    LineOk(l) && Spells(line, LineText(l) + Ampersand(c.background)) && c == Meaning(l, c.background)
  }

  /** A line is accepted, with this meaning, exactly when the grammar has it with this meaning. */
  lemma {:induction false} AcceptedExactly(line: string, c: Command)
    requires NulFree(line)
    ensures ParseLine(line) == Ok(c) <==> exists l :: Accepts(line, c, l)
  {
    hide Spells, LineText, LineOk, Backwards, Pipes, Ins, Outs;
    if ParseLine(line) == Ok(c) {
      TokensSpelled(line);
      var l, tail := LineRead(Tokenize(line));
      StopSpecial(tail, Meaning(l, false));
      LineParsed(l, tail);
      StopMeans(l, tail);
      assert Accepts(line, c, l);
    }
    forall l | Accepts(line, c, l) ensures ParseLine(line) == Ok(c) {
      var tail := Ampersand(c.background);
      LineTokens(l, tail);
      TokenizeSpelled(line, LineText(l) + tail);
      LineParsed(l, tail);
      StopMeans(l, tail);
    }
  }

  lemma {:induction false} StopSpecial(tail: seq<string>, c: Command)
    requires Stop(tail, c)
    ensures tail != [] ==> IsSpecToken(tail[0])
  {
  }

  lemma {:induction false} StopMeans(l: Line, tail: seq<string>)
    requires Stop(tail, Meaning(l, false))
    ensures var r := ParseRest(tail, Meaning(l, false));
      if tail == [] || tail == ["&"] then r == Ok(Meaning(l, tail != [])) else r == NoFileName
    ensures Ampersand(tail == ["&"]) == (if tail == ["&"] then tail else [])
  {
  }

  lemma {:induction false} LineTokens(l: Line, tail: seq<string>)
    requires LineOk(l) && (tail != [] ==> |tail| == 1 && IsSpecToken(tail[0]))
    ensures WellFormedTokens(LineText(l) + tail)
  {
    hide IsWord, IsSpecToken, IsArgument, IsFileName;
    SamePrograms(l.first);
    ItemsTokens(l.items);
    assert tail == [] || tail == [tail[0]];
  }

  lemma {:induction false} ItemsTokens(items: seq<Item>)
    requires ItemsOk(items)
    ensures WellFormedTokens(ItemsText(items))
  {
    hide IsWord, IsSpecToken, IsArgument, IsFileName;
    if items != [] {
      ItemsTokens(items[1..]);
      ItemTokens(items[0]);
    }
  }

  lemma {:induction false} ItemTokens(item: Item)
    requires ItemOk(item)
    ensures WellFormedTokens(ItemText(item))
  {
    hide IsWord, IsArgument, IsFileName, IsIdentifier;
    match item
    case Pipe(p) => SamePrograms(p);
    case In(f) => FileIsWord(f);
    case Out(f) => FileIsWord(f);
  }

  lemma {:induction false} FileIsWord(f: string)
    requires IsFileName(f)
    ensures IsWord(f)
  {
    forall i | 0 <= i < |f| ensures IsPlain(f[i]) { SameChars(f[i]); }
  }

  /** The file name of a redirection is missing: nothing follows a `<` or a `>` that may stand there. */
  ghost predicate LacksFile(line: string, l: Line, op: string) {
    && LineOk(l) && Spells(line, LineText(l) + [op])
    && ((op == "<" && Ins(l.items) == []) || (op == ">" && Outs(l.items) == []))
  }

  lemma {:induction false} LackingExactly(line: string)
    requires NulFree(line)
    ensures ParseLine(line).NoFileName? <==> exists l, op :: LacksFile(line, l, op)
  {
    hide Spells, LineText, LineOk, Ins, Outs;
    if ParseLine(line).NoFileName? {
      TokensSpelled(line);
      var l, tail := LineRead(Tokenize(line));
      StopSpecial(tail, Meaning(l, false));
      LineParsed(l, tail);
      StopMeans(l, tail);
      assert LacksFile(line, l, tail[0]);
    }
    forall l, op | LacksFile(line, l, op) ensures ParseLine(line).NoFileName? {
      LineTokens(l, [op]);
      TokenizeSpelled(line, LineText(l) + [op]);
      LineParsed(l, [op]);
      StopMeans(l, [op]);
    }
  }
}
