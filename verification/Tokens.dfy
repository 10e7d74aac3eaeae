/** The command language of the shell (code/parse.c): tokens, commands, and
    what a command line means. */
module Tokens {
  import opened Common

  predicate IsSpace(c: char) {
    c == ' ' || c == '\t' || c == '\n' || c == '\U{b}' || c == '\U{c}' || c == '\r'
  }

  predicate IsSpec(c: char) {
    c == '|' || c == '&' || c == '<' || c == '>'
  }

  /** A character of a word. */
  predicate IsPlain(c: char) {
    !IsSpace(c) && !IsSpec(c) && c != '\0'
  }

  predicate IsWord(tok: string) {
    tok != "" && forall i | 0 <= i < |tok| :: IsPlain(tok[i])
  }

  predicate IsSpecToken(tok: string) {
    |tok| == 1 && IsSpec(tok[0])
  }

  /** Characters of file names in redirections. */
  predicate IsIdChar(c: char) {
    'a' <= c <= 'z' || 'A' <= c <= 'Z' || '0' <= c <= '9' || c in "_-.,/~+"
  }

  /** `isidentifier`, which also accepts the empty string. */
  predicate IsIdentifier(s: string) {
    forall i | 0 <= i < |s| :: IsIdChar(s[i])
  }

  // ----- tokens of a line -----

  function SkipSpaces(s: string): (n: nat)
    ensures n <= |s| && (n < |s| ==> !IsSpace(s[n]))
    ensures forall i | 0 <= i < n :: IsSpace(s[i])
  {
    if s != "" && IsSpace(s[0]) then
      var n := SkipSpaces(s[1..]);
      assert forall i | 1 <= i < n + 1 :: s[i] == s[1..][i - 1];
      n + 1
    else 0
  }

  function WordLength(s: string): (n: nat)
    ensures n <= |s| && (n < |s| ==> !IsPlain(s[n]))
    ensures forall i | 0 <= i < n :: IsPlain(s[i])
  {
    if s != "" && IsPlain(s[0]) then
      var n := WordLength(s[1..]);
      assert forall i | 1 <= i < n + 1 :: s[i] == s[1..][i - 1];
      n + 1
    else 0
  }

  ghost predicate NulFree(s: string) {
    forall i | 0 <= i < |s| :: s[i] != '\0'
  }

  /** Position and length of the next token, if there is one. */
  datatype Span = Span(start: nat, end: nat)

  function NextSpan(s: string): (r: Option<Span>)
    ensures r.Some? ==> r.value.start < r.value.end <= |s|
  {
    var i := SkipSpaces(s);
    if i == |s| then None
    else if IsSpec(s[i]) then Some(Span(i, i + 1))
    else if s[i] == '\0' then None
    else
      var n := WordLength(s[i..]);
      assert IsPlain(s[i..][0]);
      Some(Span(i, i + n))
  }

  /** The tokens of `s`, in order. */
  function Tokenize(s: string): (toks: seq<string>)
    decreases |s|
  {
    match NextSpan(s)
    case None => []
    case Some(Span(i, j)) => [s[i..j]] + Tokenize(s[j..])
  }

  // ----- every layout of a token sequence is read back -----

  ghost predicate AllSpaces(s: string) {
    forall i | 0 <= i < |s| :: IsSpace(s[i])
  }

  /** `s` is some layout of `toks`: any amount of space around tokens, with space
      required only between two words. */
  ghost predicate Spells(s: string, toks: seq<string>)
    decreases |toks|
  {
    if toks == [] then AllSpaces(s) else
      exists k, m | 0 <= k <= m <= |s| ::
        && AllSpaces(s[..k]) && s[k..m] == toks[0] && Spells(s[m..], toks[1..])
        && (IsWord(toks[0]) ==> m == |s| || !IsPlain(s[m]))
  }

  lemma {:induction false} SkipUnique(s: string, k: nat)
    requires k <= |s| && AllSpaces(s[..k]) && (k < |s| ==> !IsSpace(s[k]))
    ensures SkipSpaces(s) == k
  {
    assert forall i | 0 <= i < k :: IsSpace(s[i]) by {
      forall i | 0 <= i < k ensures IsSpace(s[i]) { assert s[i] == s[..k][i]; }
    }
  }

  lemma {:induction false} WordUnique(s: string, k: nat)
    requires k <= |s| && (forall i | 0 <= i < k :: IsPlain(s[i])) && (k < |s| ==> !IsPlain(s[k]))
    ensures WordLength(s) == k
  {
  }

  /** The token at `k..m` after spaces is the next token. */
  lemma {:induction false} NextSpanIs(s: string, k: nat, m: nat)
    requires k <= m <= |s| && AllSpaces(s[..k])
    requires IsSpecToken(s[k..m]) || (IsWord(s[k..m]) && (m == |s| || !IsPlain(s[m])))
    ensures NextSpan(s) == Some(Span(k, m))
  {
    assert s[k] == s[k..m][0];
    SkipUnique(s, k);
    if IsWord(s[k..m]) {
      assert forall i | 0 <= i < m - k :: s[k..][i] == s[k..m][i];
      WordUnique(s[k..], m - k);
    }
  }

  ghost predicate WellFormedTokens(toks: seq<string>) {
    forall i | 0 <= i < |toks| :: IsWord(toks[i]) || IsSpecToken(toks[i])
  }

  lemma {:induction false} TokenizeSpelled(s: string, toks: seq<string>)
    requires Spells(s, toks) && WellFormedTokens(toks)
    ensures Tokenize(s) == toks
    decreases |toks|
  {
    hide Spells, NextSpan, IsWord, IsPlain, IsSpecToken;
    if toks == [] {
      BlankLine(s);
    } else {
      var k, m := SpellsFirst(s, toks);
      assert WellFormedTokens(toks[1..]);
      NextSpanIs(s, k, m);
      TokenizeSpelled(s[m..], toks[1..]);
    }
  }

  lemma {:induction false} BlankLine(s: string)
    requires Spells(s, [])
    ensures Tokenize(s) == []
  {
    assert s[..|s|] == s;
    SkipUnique(s, |s|);
  }

  lemma {:induction false} SpellsFirst(s: string, toks: seq<string>) returns (k: nat, m: nat)
    requires toks != [] && Spells(s, toks)
    ensures k <= m <= |s| && AllSpaces(s[..k]) && s[k..m] == toks[0] && Spells(s[m..], toks[1..])
    ensures IsWord(toks[0]) ==> m == |s| || !IsPlain(s[m])
  {
    k, m :| 0 <= k <= m <= |s| && AllSpaces(s[..k]) && s[k..m] == toks[0] && Spells(s[m..], toks[1..])
            && (IsWord(toks[0]) ==> m == |s| || !IsPlain(s[m]));
  }

  lemma {:induction false} TokenizeWellFormed(s: string)
    requires NulFree(s)
    ensures WellFormedTokens(Tokenize(s))
    decreases |s|
  {
    match NextSpan(s)
    case None =>
    case Some(Span(i, j)) =>
      TokenizeWellFormed(s[j..]);
      if !IsSpec(s[i]) {
        assert forall x | 0 <= x < j - i :: s[i..j][x] == s[i..][x];
      }
  }

  /** The plainest layout: a space after every token. */
  function Join(toks: seq<string>): (s: string)
  {
    if toks == [] then "" else toks[0] + " " + Join(toks[1..])
  }

  lemma {:induction false} JoinSpells(toks: seq<string>)
    ensures Spells(Join(toks), toks)
    decreases |toks|
  {
    if toks != [] {
      var s, m := Join(toks), |toks[0]|;
      JoinSpells(toks[1..]);
      assert s[0..m] == toks[0] && s[..0] == "" && s[m] == ' ';
      assert s[m..] == " " + Join(toks[1..]);
      SpaceSpells(Join(toks[1..]), toks[1..]);
    }
  }

  lemma {:induction false} SpaceSpells(s: string, toks: seq<string>)
    requires Spells(s, toks)
    ensures Spells(" " + s, toks)
  {
    if toks != [] {
      var k, m := SpellsFirst(s, toks);
      var t := " " + s;
      assert t[..k + 1] == " " + s[..k] && t[k + 1..m + 1] == s[k..m] && t[m + 1..] == s[m..];
      assert AllSpaces(t[..k + 1]);
    }
  }

  // ----- commands -----

  /** What `parse` fills in: programs are linked last to first. */
  datatype Command = Command(pgms: seq<seq<string>>, rstdin: Option<string>, rstdout: Option<string>, background: bool)

  datatype Outcome =
    | Ok(cmd: Command)
    | Bad
    | NoFileName  // a redirection at the end of the line; depends on stale buffer contents

  const EMPTY := Command([], None, None, false)

  /** Number of words in front (`acmd`). */
  function LeadingWords(toks: seq<string>): (k: nat)
    ensures k <= |toks|
  {
    if toks == [] || IsSpecToken(toks[0]) then 0 else 1 + LeadingWords(toks[1..])
  }

  /** From label `newcmd` of `parse`. */
  function ParseCmd(toks: seq<string>, c: Command): (r: Outcome)
    decreases |toks|, 1
  {
    var k := LeadingWords(toks);
    if k == 0 then Bad else ParseRest(toks[k..], c.(pgms := [toks[..k]] + c.pgms))
  }

  /** From label `newtoken` of `parse`. */
  function ParseRest(toks: seq<string>, c: Command): (r: Outcome)
    decreases |toks|, 0
  {
    if toks == [] then Ok(c)
    else if toks[0] == "|" then ParseCmd(toks[1..], c)
    else if toks[0] == "&" then (if |toks| == 1 then Ok(c.(background := true)) else Bad)
    else if toks[0] == "<" then
      if c.rstdin.Some? then Bad
      else if |toks| == 1 then NoFileName
      else if !IsIdentifier(toks[1]) then Bad
      else ParseRest(toks[2..], c.(rstdin := Some(toks[1])))
    else if toks[0] == ">" then
      if c.rstdout.Some? then Bad
      else if |toks| == 1 then NoFileName
      else if !IsIdentifier(toks[1]) then Bad
      else ParseRest(toks[2..], c.(rstdout := Some(toks[1])))
    else Bad
  }

  /** The meaning of a command line. */
  function ParseLine(s: string): (r: Outcome) { ParseCmd(Tokenize(s), EMPTY) }

  ghost predicate WellFormed(c: Command) {
    && c.pgms != []
    && (forall p | 0 <= p < |c.pgms| :: c.pgms[p] != [] && forall i | 0 <= i < |c.pgms[p]| :: IsWord(c.pgms[p][i]))
    && (c.rstdin.Some? ==> IsWord(c.rstdin.value) && IsIdentifier(c.rstdin.value))
    && (c.rstdout.Some? ==> IsWord(c.rstdout.value) && IsIdentifier(c.rstdout.value))
  }

  // ----- printing -----

  /** The programs in the order they are typed, with pipes in between. */
  function PrintPgms(pgms: seq<seq<string>>): (toks: seq<string>)
  {
    if pgms == [] then []
    else if |pgms| == 1 then pgms[0]
    else PrintPgms(pgms[1..]) + ["|"] + pgms[0]
  }

  function PrintRedirection(op: string, file: Option<string>): (toks: seq<string>) {
    if file.Some? then [op, file.value] else []
  }

  /** Redirections come after the last program, in either order. */
  function PrintTail(c: Command, outFirst: bool): (toks: seq<string>)
  {
    var i, o := PrintRedirection("<", c.rstdin), PrintRedirection(">", c.rstdout);
    (if outFirst then o + i else i + o) + (if c.background then ["&"] else [])
  }

  function Print(c: Command, outFirst: bool): (toks: seq<string>) {
    PrintPgms(c.pgms) + PrintTail(c, outFirst)
  }

  // ----- parsing undoes printing -----

  ghost predicate Words(toks: seq<string>) {
    forall i | 0 <= i < |toks| :: IsWord(toks[i])
  }

  lemma {:induction false} LeadingWordsIs(words: seq<string>, rest: seq<string>)
    requires Words(words) && (rest != [] ==> IsSpecToken(rest[0]))
    ensures LeadingWords(words + rest) == |words|
  {
    if words == [] {
      assert words + rest == rest;
    } else {
      assert (words + rest)[1..] == words[1..] + rest;
      LeadingWordsIs(words[1..], rest);
      assert !IsSpecToken(words[0]) by { assert IsPlain(words[0][0]); }
    }
  }

  lemma {:induction false} ParseOnePgm(words: seq<string>, rest: seq<string>, c: Command)
    requires words != [] && Words(words) && (rest != [] ==> IsSpecToken(rest[0]))
    ensures ParseCmd(words + rest, c) == ParseRest(rest, c.(pgms := [words] + c.pgms))
  {
    LeadingWordsIs(words, rest);
    assert (words + rest)[|words|..] == rest && (words + rest)[..|words|] == words;
  }

  /** The last program's text, a bar, and the first program's text. */
  lemma {:induction false} PrintSplit(pgms: seq<seq<string>>, rest: seq<string>)
    requires |pgms| > 1
    ensures PrintPgms(pgms) + rest == PrintPgms(pgms[1..]) + (["|"] + (pgms[0] + rest))
  {
  }

  lemma {:induction false} PrintOne(pgms: seq<seq<string>>)
    requires |pgms| == 1
    ensures PrintPgms(pgms) == pgms[0] && [pgms[0]] == pgms
  {
  }

  lemma {:induction false} ParsePgms(pgms: seq<seq<string>>, rest: seq<string>, c: Command)
    requires pgms != [] && forall p | 0 <= p < |pgms| :: pgms[p] != [] && Words(pgms[p])
    requires rest != [] ==> IsSpecToken(rest[0])
    ensures ParseCmd(PrintPgms(pgms) + rest, c) == ParseRest(rest, c.(pgms := pgms + c.pgms))
    decreases |pgms|
  {
    hide PrintPgms, Words, ParseCmd;
    if |pgms| == 1 {
      PrintOne(pgms);
      ParseOnePgm(pgms[0], rest, c);
    } else {
      var more := ["|"] + (pgms[0] + rest);
      PrintSplit(pgms, rest);
      ParsePgms(pgms[1..], more, c);
      assert more[1..] == pgms[0] + rest;
      ParseOnePgm(pgms[0], rest, c.(pgms := pgms[1..] + c.pgms));
      assert [pgms[0]] + (pgms[1..] + c.pgms) == pgms + c.pgms;
    }
  }

  lemma {:induction false} ParseTail(c: Command, outFirst: bool)
    requires WellFormed(c)
    ensures ParseRest(PrintTail(c, outFirst), Command(c.pgms, None, None, false)) == Ok(c)
  {
    var bg := if c.background then ["&"] else [];
    var c0 := Command(c.pgms, None, None, false);
    var i, o := PrintRedirection("<", c.rstdin), PrintRedirection(">", c.rstdout);
    ParseBackground(c);
    if outFirst {
      assert PrintTail(c, outFirst) == o + (i + bg);
      ParseRedirection(">", c0, c.rstdout, i + bg);
      ParseRedirection("<", c0.(rstdout := c.rstdout), c.rstdin, bg);
    } else {
      assert PrintTail(c, outFirst) == i + (o + bg);
      ParseRedirection("<", c0, c.rstdin, o + bg);
      ParseRedirection(">", c0.(rstdin := c.rstdin), c.rstdout, bg);
    }
  }

  lemma {:induction false} ParseRedirection(op: string, c: Command, file: Option<string>, rest: seq<string>)
    requires op == "<" || op == ">"
    requires file.Some? ==> IsIdentifier(file.value)
    requires if op == "<" then c.rstdin.None? else c.rstdout.None?
    ensures ParseRest(PrintRedirection(op, file) + rest, c) ==
            ParseRest(rest, if op == "<" then c.(rstdin := file) else c.(rstdout := file))
  {
    var toks := PrintRedirection(op, file) + rest;
    if file.Some? {
      assert toks[2..] == rest;
    } else {
      assert toks == rest;
    }
  }

  lemma {:induction false} ParseBackground(c: Command)
    ensures ParseRest(if c.background then ["&"] else [], c.(background := false)) == Ok(c)
  {
  }

  /** Parsing undoes printing, for every layout of the printed tokens. */
  lemma {:induction false} ParseUndoesPrint(c: Command, outFirst: bool, line: string)
    requires WellFormed(c) && Spells(line, Print(c, outFirst))
    ensures ParseLine(line) == Ok(c)
  {
    var tail := PrintTail(c, outFirst);
    PrintWellFormed(c, outFirst);
    TokenizeSpelled(line, Print(c, outFirst));
    ParsePgms(c.pgms, tail, EMPTY);
    ParseTail(c, outFirst);
    assert c.pgms + [] == c.pgms;
  }

  lemma {:induction false} PrintPgmsWellFormed(pgms: seq<seq<string>>)
    requires forall p | 0 <= p < |pgms| :: Words(pgms[p])
    ensures WellFormedTokens(PrintPgms(pgms))
  {
    if |pgms| > 1 { PrintPgmsWellFormed(pgms[1..]); }
  }

  lemma {:induction false} PrintWellFormed(c: Command, outFirst: bool)
    requires WellFormed(c)
    ensures WellFormedTokens(Print(c, outFirst))
  {
    PrintPgmsWellFormed(c.pgms);
  }

  // ----- whatever is accepted is well formed -----

  lemma {:induction false} LeadingWordsMeaning(toks: seq<string>)
    requires WellFormedTokens(toks)
    ensures Words(toks[..LeadingWords(toks)])
    ensures LeadingWords(toks) < |toks| ==> IsSpecToken(toks[LeadingWords(toks)])
  {
    if toks != [] && !IsSpecToken(toks[0]) {
      LeadingWordsMeaning(toks[1..]);
      var k := LeadingWords(toks[1..]);
      assert toks[..k + 1] == [toks[0]] + toks[1..][..k];
    }
  }

  /** A partly parsed command: as `WellFormed`, but maybe without programs yet. */
  ghost predicate Partial(c: Command) {
    WellFormed(c.(pgms := c.pgms + [["x"]]))
  }

  lemma {:induction false} PartialFacts(c: Command)
    ensures Partial(c) && c.pgms != [] ==> WellFormed(c)
    ensures WellFormed(c) ==> Partial(c)
    ensures Partial(EMPTY)
  {
    var d := c.pgms + [["x"]];
    assert forall p | 0 <= p < |c.pgms| :: d[p] == c.pgms[p];
    assert IsWord("x");
  }

  lemma {:induction false} ParseCmdWellFormed(toks: seq<string>, c: Command)
    requires WellFormedTokens(toks) && Partial(c) && ParseCmd(toks, c).Ok?
    ensures WellFormed(ParseCmd(toks, c).cmd)
    decreases |toks|, 1
  {
    var k := LeadingWords(toks);
    LeadingWordsMeaning(toks);
    var c' := c.(pgms := [toks[..k]] + c.pgms);
    var d, d' := c.pgms + [["x"]], [toks[..k]] + c.pgms;
    assert forall p | 0 <= p < |c.pgms| :: d[p] == c.pgms[p];
    assert forall p | 0 < p < |d'| :: d'[p] == c.pgms[p - 1] == d[p - 1];
    assert WellFormed(c');
    ParseRestWellFormed(toks[k..], c');
  }

  lemma {:induction false} ParseRestWellFormed(toks: seq<string>, c: Command)
    requires WellFormedTokens(toks) && WellFormed(c) && ParseRest(toks, c).Ok?
    ensures WellFormed(ParseRest(toks, c).cmd)
    decreases |toks|, 0
  {
    if toks == [] {
    } else if toks[0] == "|" {
      PartialFacts(c);
      ParseCmdWellFormed(toks[1..], c);
    } else if toks[0] == "<" {
      IdentifierIsWord(toks[1]);
      ParseRestWellFormed(toks[2..], c.(rstdin := Some(toks[1])));
    } else if toks[0] == ">" {
      IdentifierIsWord(toks[1]);
      ParseRestWellFormed(toks[2..], c.(rstdout := Some(toks[1])));
    }
  }

  lemma {:induction false} IdentifierIsWord(tok: string)
    requires IsIdentifier(tok) && (IsWord(tok) || IsSpecToken(tok))
    ensures IsWord(tok)
  {
    assert IsIdChar(tok[0]);
  }

  /** Every accepted line stands for a well-formed command, and printing that
      command gives a line, in any layout, with the same meaning. */
  lemma {:induction false} AcceptedIsCanonical(line: string, outFirst: bool, again: string)
    requires NulFree(line) && ParseLine(line).Ok?
    ensures WellFormed(ParseLine(line).cmd)
    ensures Spells(again, Print(ParseLine(line).cmd, outFirst)) ==> ParseLine(again) == ParseLine(line)
  {
    TokenizeWellFormed(line);
    PartialFacts(EMPTY);
    ParseCmdWellFormed(Tokenize(line), EMPTY);
    var c := ParseLine(line).cmd;
    if Spells(again, Print(c, outFirst)) {
      ParseUndoesPrint(c, outFirst, again);
    }
  }
}
