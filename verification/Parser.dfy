/** The parser of the shell as code/parse.c runs it: three static buffers with
    moving cursors, strings and lists as positions in those buffers. */
module Parser {
  import opened Common
  import opened Tokens

  const CMDBUF: nat := 20
  const CBUF: nat := 256
  const PBUF: nat := 50
  const NULL: int := -1

  // ----- how much of the buffers a line takes -----

  datatype Need = Need(chars: nat, ptrs: nat, cmds: nat) {
    function Plus(o: Need): Need { Need(chars + o.chars, ptrs + o.ptrs, cmds + o.cmds) }
    predicate Within(o: Need) { chars <= o.chars && ptrs <= o.ptrs && cmds <= o.cmds }
  }

  const NOTHING := Need(0, 0, 0)

  /** Space for the texts of `toks`, each with its terminator. */
  function CharsOf(toks: seq<string>): (n: nat)
  {
    if toks == [] then 0 else |toks[0]| + 1 + CharsOf(toks[1..])
  }

  /** The first token of `toks`, if any, is stored once. */
  function Peeked(toks: seq<string>): (n: nat) {
    if toks == [] then 0 else |toks[0]| + 1
  }

  function NeedAcmd(toks: seq<string>): (n: Need) {
    var k := LeadingWords(toks);
    Need(CharsOf(toks[..k]) + Peeked(toks[k..]), k + 1, 1)
  }

  function NeedCmd(toks: seq<string>, c: Command): (n: Need)
    decreases |toks|, 1
  {
    var k := LeadingWords(toks);
    if k == 0 then NeedAcmd(toks)
    else NeedAcmd(toks).Plus(NeedRest(toks[k..], c.(pgms := [toks[..k]] + c.pgms)))
  }

  function NeedRest(toks: seq<string>, c: Command): (n: Need)
    decreases |toks|, 0
  {
    if toks == [] then NOTHING else
      Need(Peeked(toks), 0, 0).Plus(
        if toks[0] == "|" then NeedCmd(toks[1..], c)
        else if toks[0] == "&" then Need(Peeked(toks[1..]), 0, 0)
        else if toks[0] == "<" && c.rstdin.None? then
          Need(Peeked(toks[1..]), 0, 0).Plus(
            if |toks| > 1 && IsIdentifier(toks[1]) then NeedRest(toks[2..], c.(rstdin := Some(toks[1]))) else NOTHING)
        else if toks[0] == ">" && c.rstdout.None? then
          Need(Peeked(toks[1..]), 0, 0).Plus(
            if |toks| > 1 && IsIdentifier(toks[1]) then NeedRest(toks[2..], c.(rstdout := Some(toks[1]))) else NOTHING)
        else NOTHING)
  }

  /** The line can be parsed within the three buffers. */
  ghost predicate Fits(line: string) {
    NeedCmd(Tokenize(line), EMPTY).Within(Need(CBUF, PBUF, CMDBUF))
  }

  // ----- strings and lists in the buffers -----

  /** The C string at `i` of the filled part `..cp` of the buffer is `s`. */
  ghost predicate TextAt(buf: seq<char>, cp: nat, i: int, s: string) {
    && 0 <= i && i + |s| < cp <= |buf|
    && buf[i..i + |s|] == s && buf[i + |s|] == '\0'
  }

  lemma {:induction false} TextStays(buf: seq<char>, cp: nat, buf': seq<char>, cp': nat, i: int, s: string)
    requires TextAt(buf, cp, i, s) && cp <= cp' <= |buf'| && buf'[..cp] == buf[..cp]
    ensures TextAt(buf', cp', i, s)
  {
    assert buf'[i..i + |s|] == buf'[..cp][i..i + |s|] == buf[..cp][i..i + |s|] == buf[i..i + |s|];
    assert buf'[i + |s|] == buf'[..cp][i + |s|] == buf[..cp][i + |s|];
  }

  /** The argument list at `p` of the filled part `..pp` is `words`, ended by NULL. */
  ghost predicate ArgvAt(cbuf: seq<char>, cp: nat, pbuf: seq<int>, pp: nat, p: int, words: seq<string>) {
    && 0 <= p && p + |words| < pp <= |pbuf| && pbuf[p + |words|] == NULL
    && forall j {:trigger words[j]} | 0 <= j < |words| :: TextAt(cbuf, cp, pbuf[p + j], words[j])
  }

  lemma {:induction false} ArgvStays(cbuf: seq<char>, cp: nat, pbuf: seq<int>, pp: nat,
                                     cbuf': seq<char>, cp': nat, pbuf': seq<int>, pp': nat, p: int, words: seq<string>)
    requires ArgvAt(cbuf, cp, pbuf, pp, p, words)
    requires cp <= cp' <= |cbuf'| && cp <= |cbuf| && cbuf'[..cp] == cbuf[..cp]
    requires pp <= pp' <= |pbuf'| && pbuf'[..pp] == pbuf[..pp]
    ensures ArgvAt(cbuf', cp', pbuf', pp', p, words)
  {
    hide TextAt;
    assert forall i {:trigger pbuf'[i]} | 0 <= i < pp :: pbuf'[i] == pbuf[i] by {
      forall i | 0 <= i < pp ensures pbuf'[i] == pbuf[i] { assert pbuf'[i] == pbuf'[..pp][i] == pbuf[..pp][i]; }
    }
    forall j | 0 <= j < |words| ensures TextAt(cbuf', cp', pbuf'[p + j], words[j]) {
      assert pbuf'[p + j] == pbuf[p + j];
      TextStays(cbuf, cp, cbuf', cp', pbuf[p + j], words[j]);
    }
  }

  /** The entries `p..pp` hold `words`. */
  ghost predicate ArgsSoFar(cbuf: seq<char>, cp: nat, pbuf: seq<int>, pp: nat, p: nat, words: seq<string>) {
    && p + |words| == pp <= |pbuf|
    && forall j {:trigger words[j]} | 0 <= j < |words| :: TextAt(cbuf, cp, pbuf[p + j], words[j])
  }

  /** Storing one more argument, then reading one more token. */
  lemma {:induction false} ArgsPush(cbuf: seq<char>, cp: nat, pbuf: seq<int>, pp: nat,
                                    cbuf': seq<char>, cp': nat, p: nat, words: seq<string>, tok: int, word: string)
    requires ArgsSoFar(cbuf, cp, pbuf, pp, p, words) && TextAt(cbuf, cp, tok, word) && pp < |pbuf|
    requires cp <= cp' <= |cbuf'| && cp <= |cbuf| && cbuf'[..cp] == cbuf[..cp]
    ensures ArgsSoFar(cbuf', cp', pbuf[pp := tok], pp + 1, p, words + [word])
  {
    hide TextAt;
    var words', pbuf' := words + [word], pbuf[pp := tok];
    forall j | 0 <= j < |words'| ensures TextAt(cbuf', cp', pbuf'[p + j], words'[j]) {
      if j < |words| {
        assert words'[j] == words[j];
        TextStays(cbuf, cp, cbuf', cp', pbuf[p + j], words[j]);
      } else {
        TextStays(cbuf, cp, cbuf', cp', tok, word);
      }
    }
  }

  /** The file name at `p`, NULL if there is none. */
  ghost predicate FileAt(cbuf: seq<char>, cp: nat, p: int, file: Option<string>) {
    if file.None? then p == NULL else TextAt(cbuf, cp, p, file.value)
  }

  lemma {:induction false} FileSome(cbuf: seq<char>, cp: nat, p: int, name: string)
    ensures FileAt(cbuf, cp, p, Some(name)) <==> TextAt(cbuf, cp, p, name)
  {
  }

  lemma {:induction false} FileNull(cbuf: seq<char>, cp: nat, p: int, file: Option<string>)
    requires FileAt(cbuf, cp, p, file)
    ensures p == NULL <==> file.None?
  {
  }

  /** Entry `i` of `lists` holds the `i`th program typed; `pgms` lists them last to first. */
  ghost predicate ProgramsIn(cbuf: seq<char>, cp: nat, pbuf: seq<int>, pp: nat, lists: seq<int>,
                             pgms: seq<seq<string>>) {
    && |pgms| <= |lists|
    && forall i {:trigger lists[i]} | 0 <= i < |pgms| ::
         ArgvAt(cbuf, cp, pbuf, pp, lists[i], pgms[|pgms| - 1 - i])
  }

  /** Texts and lists survive when the buffers only grow. */
  ghost predicate Grown(cbuf: seq<char>, cp: nat, pbuf: seq<int>, pp: nat, cbuf': seq<char>, cp': nat, pbuf': seq<int>,
                        pp': nat) {
    && cp <= cp' <= |cbuf'| == |cbuf| && cbuf'[..cp] == cbuf[..cp]
    && pp <= pp' <= |pbuf'| == |pbuf| && pbuf'[..pp] == pbuf[..pp]
  }

  lemma {:induction false} AllStay(cbuf: seq<char>, cp: nat, pbuf: seq<int>, pp: nat,
                                   cbuf': seq<char>, cp': nat, pbuf': seq<int>, pp': nat)
    requires Grown(cbuf, cp, pbuf, pp, cbuf', cp', pbuf', pp')
    ensures forall p, file :: FileAt(cbuf, cp, p, file) ==> FileAt(cbuf', cp', p, file)
    ensures forall p, words :: ArgvAt(cbuf, cp, pbuf, pp, p, words) ==> ArgvAt(cbuf', cp', pbuf', pp', p, words)
  {
    forall p, file: Option<string> | FileAt(cbuf, cp, p, file) ensures FileAt(cbuf', cp', p, file) {
      if file.Some? { TextStays(cbuf, cp, cbuf', cp', p, file.value); }
    }
    forall p, words | ArgvAt(cbuf, cp, pbuf, pp, p, words) ensures ArgvAt(cbuf', cp', pbuf', pp', p, words) {
      ArgvStays(cbuf, cp, pbuf, pp, cbuf', cp', pbuf', pp', p, words);
    }
  }

  /** A new program joins those that stay. */
  lemma {:induction false} ProgramsGrow(cbuf: seq<char>, cp: nat, pbuf: seq<int>, pp: nat, lists: seq<int>,
                                        pgms: seq<seq<string>>,
                                        cbuf': seq<char>, cp': nat, pbuf': seq<int>, pp': nat, p: int,
                                        words: seq<string>)
    requires Grown(cbuf, cp, pbuf, pp, cbuf', cp', pbuf', pp') && ProgramsIn(cbuf, cp, pbuf, pp, lists, pgms)
    requires |pgms| < |lists| && ArgvAt(cbuf', cp', pbuf', pp', p, words)
    ensures ProgramsIn(cbuf', cp', pbuf', pp', lists[|pgms| := p], [words] + pgms)
  {
    hide ArgvAt, Grown;
    AllStay(cbuf, cp, pbuf, pp, cbuf', cp', pbuf', pp');
    var lists', all := lists[|pgms| := p], [words] + pgms;
    forall i | 0 <= i < |all| ensures ArgvAt(cbuf', cp', pbuf', pp', lists'[i], all[|all| - 1 - i]) {
      if i < |pgms| {
        assert all[|all| - 1 - i] == pgms[|pgms| - 1 - i] && lists'[i] == lists[i];
      }
    }
  }

  lemma {:induction false} ProgramsRemain(cbuf: seq<char>, cp: nat, pbuf: seq<int>, pp: nat,
                                          cbuf': seq<char>, cp': nat, pbuf': seq<int>, pp': nat, lists: seq<int>,
                                          pgms: seq<seq<string>>)
    requires Grown(cbuf, cp, pbuf, pp, cbuf', cp', pbuf', pp') && ProgramsIn(cbuf, cp, pbuf, pp, lists, pgms)
    ensures ProgramsIn(cbuf', cp', pbuf', pp', lists, pgms)
  {
    hide ArgvAt, Grown;
    AllStay(cbuf, cp, pbuf, pp, cbuf', cp', pbuf', pp');
  }

  lemma {:induction false} NoArgs(cbuf: seq<char>, cp: nat, pbuf: seq<int>, pp: nat)
    requires pp <= |pbuf|
    ensures ArgsSoFar(cbuf, cp, pbuf, pp, pp, [])
  {
  }

  lemma {:induction false} ArgsEnd(cbuf: seq<char>, cp: nat, pbuf: seq<int>, pp: nat, p: nat, words: seq<string>)
    requires ArgsSoFar(cbuf, cp, pbuf, pp, p, words) && pp < |pbuf|
    ensures ArgvAt(cbuf, cp, pbuf[pp := NULL], pp + 1, p, words)
  {
  }

  lemma {:induction false} CharsSnoc(toks: seq<string>, i: nat)
    requires i < |toks|
    ensures CharsOf(toks[..i + 1]) == CharsOf(toks[..i]) + |toks[i]| + 1
  {
    if i > 0 {
      CharsSnoc(toks[1..], i - 1);
      assert toks[..i + 1][1..] == toks[1..][..i] && toks[..i][1..] == toks[1..][..i - 1];
    } else {
      assert toks[..1][1..] == [];
    }
  }

  /** Reading further tokens takes no less space. */
  lemma {:induction false} CharsGrow(toks: seq<string>, i: nat, k: nat)
    requires i <= k <= |toks|
    ensures CharsOf(toks[..i]) + Peeked(toks[i..]) <= CharsOf(toks[..k]) + Peeked(toks[k..])
    decreases k - i
  {
    if i < k {
      CharsSnoc(toks, i);
      CharsGrow(toks, i + 1, k);
    }
  }

  lemma {:induction false} LeadingWordsAt(toks: seq<string>, i: nat)
    requires i <= LeadingWords(toks)
    ensures i == LeadingWords(toks) <==> i == |toks| || IsSpecToken(toks[i])
  {
    if i > 0 { LeadingWordsAt(toks[1..], i - 1); }
  }

  /** The first token of the line from `t` on, in positions of the line. */
  lemma {:induction false} FirstToken(line: string, t: nat)
    requires NulFree(line) && t <= |line|
    ensures var s := t + SkipSpaces(line[t..]);
            && s <= |line|
            && (s == |line| ==> Tokenize(line[t..]) == [])
            && (s < |line| && IsSpec(line[s]) ==> Tokenize(line[t..]) == [[line[s]]] + Tokenize(line[s + 1..]))
            && (s < |line| && !IsSpec(line[s]) ==>
                 var m := s + WordLength(line[s..]);
                 IsPlain(line[s]) && s < m <= |line| && Tokenize(line[t..]) == [line[s..m]] + Tokenize(line[m..]))
  {
    hide Tokenize, SkipSpaces, WordLength, IsSpace;
    var rest := line[t..];
    var k := SkipSpaces(rest);
    var s := t + k;
    TokenizeStep(rest);
    if s < |line| {
      assert rest[k] == line[s];
      assert rest[k..] == line[s..];
      var m := if IsSpec(line[s]) then s + 1 else s + WordLength(line[s..]);
      assert IsPlain(line[s]) ==> WordLength(line[s..]) > 0 by { assert line[s..][0] == line[s]; }
      SubSlices(line, t, s, m);
    }
  }

  lemma {:induction false} TokenizeStep(s: string)
    ensures NextSpan(s).None? ==> Tokenize(s) == []
    ensures NextSpan(s).Some? ==> var Span(i, j) := NextSpan(s).value; Tokenize(s) == [s[i..j]] + Tokenize(s[j..])
  {
  }

  lemma {:induction false} SubSlices(line: string, t: nat, s: nat, m: nat)
    requires t <= s <= m <= |line|
    ensures line[t..][s - t..m - t] == line[s..m] && line[t..][m - t..] == line[m..]
    ensures m == s + 1 ==> line[s..m] == [line[s]]
  {
  }

  class Buffers {
    const cbuf: array<char>
    const pbuf: array<int>
    const pgmlist: array<int>  // per program: position of its argument list in pbuf
    const next: array<int>     // per program: the next one in the list, or NULL
    var cp: nat
    var pp: nat
    var cmds: int
    ghost var before: seq<char>  // what `init` found in cbuf

    /** The buffers have their sizes, and behind the cursor `cbuf` holds what was left in it. */
    ghost predicate Valid()
      reads this, cbuf, pbuf, pgmlist, next
    {
      && cbuf.Length == CBUF && pbuf.Length == PBUF && pgmlist.Length == next.Length == CMDBUF
      && pbuf != pgmlist && pbuf != next && pgmlist != next
      && cp <= CBUF && pp <= PBUF
      && |before| == CBUF && forall j {:trigger cbuf[j]} | cp <= j < CBUF :: cbuf[j] == before[j]
    }

    constructor ()
      ensures Valid() && fresh(cbuf) && fresh(pbuf) && fresh(pgmlist) && fresh(next)
    {
      cbuf := new char[CBUF];
      pbuf := new int[PBUF];
      pgmlist := new int[CMDBUF];
      next := new int[CMDBUF];
      cp, pp, cmds := 0, 0, 0;
      new;
      before := cbuf[..];
    }

    /** `nexttoken` at position `t` of the line: `n` is the number of characters
        consumed, 0 if no token is left. */
    method NextToken(line: string, t: nat) returns (n: nat, tok: nat)
      requires Valid() && NulFree(line) && t <= |line|
      requires cp + Peeked(Tokenize(line[t..])) <= CBUF
      modifies this`cp, cbuf
      ensures Valid() && tok == old(cp) && t + n <= |line|
      ensures cbuf[..old(cp)] == old(cbuf[..cp])
      ensures cp == old(cp) + Peeked(Tokenize(line[t..]))
      ensures n == 0 <==> Tokenize(line[t..]) == []
      ensures n > 0 ==> Tokenize(line[t..]) == [Tokenize(line[t..])[0]] + Tokenize(line[t + n..])
      ensures n > 0 ==> TextAt(cbuf[..], cp, tok, Tokenize(line[t..])[0])
    {
      hide Tokenize, SkipSpaces, WordLength, NulFree, IsSpace;
      tok := cp;
      var s := SkipBlanks(line, t);
      FirstToken(line, t);
      if s == |line| { return 0, tok; }
      var c := line[s];
      if IsSpec(c) {
        cbuf[cp] := c;
        cbuf[cp + 1] := '\0';
        cp := cp + 2;
        s := s + 1;
        assert cbuf[tok..tok + 1] == [c];
      } else {
        s := CopyWord(line, s);
      }
      n := s - t;
    }

    /** The loop of `nexttoken` over leading white space. */
    method SkipBlanks(line: string, t: nat) returns (s: nat)
      requires t <= |line|
      ensures s == t + SkipSpaces(line[t..]) <= |line|
    {
      ghost var rest := line[t..];
      s := t;
      while s < |line| && IsSpace(line[s])
        invariant t <= s <= |line|
        invariant forall i | t <= i < s :: IsSpace(line[i])
      {
        s := s + 1;
      }
      assert forall i | 0 <= i < s - t :: rest[i] == line[t + i];
      assert AllSpaces(rest[..s - t]);
      SkipUnique(rest, s - t);
    }

    /** The copying loop of `nexttoken`. */
    method CopyWord(line: string, start: nat) returns (s: nat)
      requires Valid() && NulFree(line) && start < |line| && IsPlain(line[start])
      requires cp + WordLength(line[start..]) + 1 <= CBUF
      modifies this`cp, cbuf
      ensures Valid() && s == start + WordLength(line[start..]) <= |line|
      ensures cbuf[..old(cp)] == old(cbuf[..cp])
      ensures cp == old(cp) + WordLength(line[start..]) + 1
      ensures TextAt(cbuf[..], cp, old(cp), line[start..s])
    {
      hide WordLength, IsPlain;
      ghost var len := WordLength(line[start..]);
      s := start;
      while s < |line| && IsPlain(line[s])
        invariant start <= s <= |line| && s - start <= len
        invariant cp == old(cp) + (s - start)
        invariant cbuf[..old(cp)] == old(cbuf[..cp])
        invariant cbuf[old(cp)..cp] == line[start..s]
        invariant forall j {:trigger cbuf[j]} | cp <= j < CBUF :: cbuf[j] == before[j]
        invariant forall i | start <= i < s :: IsPlain(line[i])
      {
        assert line[start..][s - start] == line[s];
        ghost var cb := cbuf[..];
        cbuf[cp] := line[s];
        assert cbuf[..] == cb[cp := line[s]];
        cp := cp + 1;
        s := s + 1;
        assert line[start..s] == line[start..s - 1] + [line[s - 1]];
      }
      assert s - start < |line[start..]| ==> line[start..][s - start] == line[s];
      assert forall i | 0 <= i < s - start :: line[start..][i] == line[start + i];
      WordUnique(line[start..], s - start);
      ghost var cb := cbuf[..];
      cbuf[cp] := '\0';
      assert cbuf[..] == cb[cp := '\0'];
      cp := cp + 1;
      assert cbuf[old(cp)..cp - 1] == cb[old(cp)..cp - 1];
    }

    /** `acmd`: the words up to the next special token become an argument list. */
    method Acmd(line: string, t: nat) returns (cnt: nat, cmd0: nat)
      requires Valid() && NulFree(line) && t <= |line| && 0 <= cmds < CMDBUF
      requires cp + NeedAcmd(Tokenize(line[t..])).chars <= CBUF
      requires pp + NeedAcmd(Tokenize(line[t..])).ptrs <= PBUF
      modifies this, cbuf, pbuf, pgmlist, next
      ensures Valid() && before == old(before) && cmd0 == old(cmds) && cmds == old(next[cmds])
      ensures next[..] == old(next[..])[cmd0 := NULL] && pgmlist[..] == old(pgmlist[..])[cmd0 := old(pp)]
      ensures cp == old(cp) + NeedAcmd(Tokenize(line[t..])).chars && cbuf[..old(cp)] == old(cbuf[..cp])
      ensures pp == old(pp) + NeedAcmd(Tokenize(line[t..])).ptrs && pbuf[..old(pp)] == old(pbuf[..pp])
      ensures var toks := Tokenize(line[t..]);
              var k := LeadingWords(toks);
              && t + cnt <= |line| && (cnt == 0 <==> k == 0)
              && Tokenize(line[t + cnt..]) == toks[k..]
              && ArgvAt(cbuf[..], cp, pbuf[..], pp, old(pp), toks[..k])
    {
      hide Tokenize, NulFree, NeedAcmd, LeadingWords, ArgvAt;
      cmd0 := cmds;
      cmds := next[cmds];
      next[cmd0] := NULL;
      pgmlist[cmd0] := pp;
      cnt := ReadWords(line, t);
    }

    /** Reading has reached token `i`, of `n` characters at position `s`; the
        words before it are in `pbuf` from `p` on, all texts in `cbuf` from `c` on. */
    ghost predicate Reading(line: string, toks: seq<string>, s: nat, n: nat, tok: nat, i: nat, p: nat, c: nat)
      reads this, cbuf, pbuf, pgmlist, next
    {
      && Valid() && s + n <= |line| && i <= LeadingWords(toks)
      && Tokenize(line[s..]) == toks[i..]
      && (if n == 0 then i == |toks|
          else i < |toks| && toks[i..] == [toks[i]] + Tokenize(line[s + n..]) && TextAt(cbuf[..], cp, tok, toks[i]))
      && pp == p + i && ArgsSoFar(cbuf[..], cp, pbuf[..], pp, p, toks[..i])
      && cp == c + CharsOf(toks[..i]) + Peeked(toks[i..])
    }

    /** The loop of `acmd`. */
    method ReadWords(line: string, t: nat) returns (cnt: nat)
      requires Valid() && NulFree(line) && t <= |line|
      requires cp + NeedAcmd(Tokenize(line[t..])).chars <= CBUF
      requires pp + NeedAcmd(Tokenize(line[t..])).ptrs <= PBUF
      modifies this`cp, this`pp, cbuf, pbuf
      ensures Valid()
      ensures cp == old(cp) + NeedAcmd(Tokenize(line[t..])).chars && cbuf[..old(cp)] == old(cbuf[..cp])
      ensures pp == old(pp) + NeedAcmd(Tokenize(line[t..])).ptrs && pbuf[..old(pp)] == old(pbuf[..pp])
      ensures var toks := Tokenize(line[t..]);
              var k := LeadingWords(toks);
              && t + cnt <= |line| && (cnt == 0 <==> k == 0)
              && Tokenize(line[t + cnt..]) == toks[k..]
              && ArgvAt(cbuf[..], cp, pbuf[..], pp, old(pp), toks[..k])
    {
      hide Tokenize, NulFree, TextAt, Peeked, CharsOf, LeadingWords, ArgvAt, ArgsSoFar, IsSpecToken, Buffers.Reading;
      ghost var toks := Tokenize(line[t..]);
      ghost var i := 0;
      ghost var p, c := pp, cp;
      cnt := 0;
      var n, tok, special := FirstWord(line, t);
      while !special
        invariant Reading(line, toks, t + cnt, n, tok, i, p, c)
        invariant cnt == 0 <==> i == 0
        invariant special <==> i == LeadingWords(toks)
        invariant p <= pbuf.Length && pbuf[..p] == old(pbuf[..pp])
        invariant c <= cbuf.Length && cbuf[..c] == old(cbuf[..cp])
        decreases |line| - cnt
      {
        ReadingFacts(line, toks, t + cnt, n, tok, i, p, c);
        var m := n;
        n, tok, special := StoreWord(line, toks, t + cnt, n, tok, i, p, c);
        cnt := cnt + m;
        i := i + 1;
        ReadingFacts(line, toks, t + cnt, n, tok, i, p, c);
      }
      ReadingFacts(line, toks, t + cnt, n, tok, i, p, c);
      ArgsEnd(cbuf[..], cp, pbuf[..], pp, p, toks[..i]);
      ghost var pb := pbuf[..];
      pbuf[pp] := NULL;
      assert pbuf[..] == pb[pp := NULL];
      pp := pp + 1;
    }

    method FirstWord(line: string, t: nat) returns (n: nat, tok: nat, special: bool)
      requires Valid() && NulFree(line) && t <= |line|
      requires cp + NeedAcmd(Tokenize(line[t..])).chars <= CBUF
      modifies this`cp, cbuf
      ensures Reading(line, Tokenize(line[t..]), t, n, tok, 0, pp, old(cp))
      ensures special <==> LeadingWords(Tokenize(line[t..])) == 0
      ensures cbuf[..old(cp)] == old(cbuf[..cp])
    {
      hide Tokenize, NulFree, TextAt, Peeked, CharsOf, LeadingWords, ArgsSoFar, IsSpecToken;
      ghost var toks := Tokenize(line[t..]);
      AtWord(toks, 0);
      n, tok := NextToken(line, t);
      NoArgs(cbuf[..], cp, pbuf[..], pp);
      assert toks[..0] == [];
      special := AtSpecial(line, t, n, tok);
    }

    lemma {:induction false} ReadingFacts(line: string, toks: seq<string>, s: nat, n: nat, tok: nat, i: nat, p: nat,
                                          c: nat)
      requires Reading(line, toks, s, n, tok, i, p, c)
      ensures Valid() && s + n <= |line| && i <= LeadingWords(toks) && Tokenize(line[s..]) == toks[i..]
      ensures pp == p + i && ArgsSoFar(cbuf[..], cp, pbuf[..], pp, p, toks[..i])
      ensures cp == c + CharsOf(toks[..i]) + Peeked(toks[i..])
    {
    }

    method StoreWord(line: string, ghost toks: seq<string>, s: nat, n: nat, tok: nat, ghost i: nat, ghost p: nat,
                     ghost c: nat)
        returns (n': nat, tok': nat, special: bool)
      requires NulFree(line) && Reading(line, toks, s, n, tok, i, p, c) && i < LeadingWords(toks)
      requires p + i < PBUF && c + NeedAcmd(toks).chars <= CBUF
      modifies this`cp, this`pp, cbuf, pbuf
      ensures n > 0 && Reading(line, toks, s + n, n', tok', i + 1, p, c)
      ensures special <==> i + 1 == LeadingWords(toks)
      ensures pbuf[..p] == old(pbuf[..p])
      ensures old(cp) <= cp && cbuf[..old(cp)] == old(cbuf[..cp])
    {
      hide Tokenize, NulFree, TextAt, Peeked, CharsOf, LeadingWords, ArgsSoFar, IsSpecToken;
      AtWord(toks, i);
      AtWord(toks, i + 1);
      ghost var cb, pb, q := cbuf[..], pbuf[..], cp;
      pbuf[pp] := tok;
      pp := pp + 1;
      n', tok' := NextToken(line, s + n);
      special := AtSpecial(line, s + n, n', tok');
      ArgsPush(cb, q, pb, p + i, cbuf[..], cp, p, toks[..i], tok, toks[i]);
      assert pbuf[..] == pb[p + i := tok] && toks[..i + 1] == toks[..i] + [toks[i]];
    }

    method AtSpecial(line: string, t: nat, n: nat, tok: nat) returns (special: bool)
      requires Valid() && NulFree(line) && t <= |line|
      requires n == 0 <==> Tokenize(line[t..]) == []
      requires n > 0 ==> TextAt(cbuf[..], cp, tok, Tokenize(line[t..])[0])
      ensures special <==> Tokenize(line[t..]) == [] || IsSpecToken(Tokenize(line[t..])[0])
    {
      if n == 0 { return true; }
      special := IsSpec(cbuf[tok]);
      ghost var first := Tokenize(line[t..])[0];
      TokenizeWellFormed(line[t..]);
      assert cbuf[..][tok..tok + |first|][0] == cbuf[tok];
    }

    /** `init`. */
    method Init()
      requires Valid()
      modifies this, next
      ensures Valid() && before == cbuf[..] && cp == 0 && pp == 0 && Linked(0)
    {
      for i := 0 to CMDBUF - 1
        invariant forall j | 0 <= j < i :: next[j] == j + 1
      {
        next[i] := i + 1;
      }
      next[CMDBUF - 1] := NULL;
      cmds, cp, pp := 0, 0, 0;
      before := cbuf[..];
    }

    /** The first `m` program records are in use, each linked to the one before
        it; the others form the free list. */
    ghost predicate Linked(m: nat)
      reads this, next
    {
      && m <= CMDBUF == next.Length
      && (forall i {:trigger next[i]} | 0 <= i < m :: next[i] == i - 1)
      && (forall i {:trigger next[i]} | m <= i < CMDBUF :: next[i] == if i + 1 < CMDBUF then i + 1 else NULL)
      && cmds == if m < CMDBUF then m else NULL
    }

    /** The list of programs starting at record `p`, following `next`. */
    ghost predicate PgmsAt(p: int, pgms: seq<seq<string>>)
      reads this, cbuf, pbuf, pgmlist, next
      decreases |pgms|
    {
      if pgms == [] then p == NULL else
        && 0 <= p < pgmlist.Length && p < next.Length
        && ArgvAt(cbuf[..], cp, pbuf[..], pp, pgmlist[p], pgms[0])
        && PgmsAt(next[p], pgms[1..])
    }

    lemma {:induction false} FollowNext(pgms: seq<seq<string>>, m: nat)
      requires m <= |pgms| && Valid() && Linked(|pgms|) && ProgramsIn(cbuf[..], cp, pbuf[..], pp, pgmlist[..], pgms)
      ensures PgmsAt(m - 1, pgms[|pgms| - m..])
      decreases m
    {
      if m > 0 {
        FollowNext(pgms, m - 1);
        assert pgms[|pgms| - m..][0] == pgms[|pgms| - m];
        assert pgms[|pgms| - m..][1..] == pgms[|pgms| - (m - 1)..];
        assert next[m - 1] == m - 2;
        assert pgmlist[..][m - 1] == pgmlist[m - 1];
      }
    }

    /** Everything parsed so far is in the buffers. */
    ghost predicate Holds(c: CommandRec, cmd: Command)
      reads this, cbuf, pbuf, pgmlist, next, c
    {
      && Valid() && Linked(|cmd.pgms|) && ProgramsIn(cbuf[..], cp, pbuf[..], pp, pgmlist[..], cmd.pgms)
      && c.pgm == |cmd.pgms| - 1 && c.background == cmd.background
      && FileAt(cbuf[..], cp, c.rstdin, cmd.rstdin)
      && FileAt(cbuf[..], cp, c.rstdout, cmd.rstdout)
    }

    /** What is still needed fits. */
    ghost predicate Room(need: Need, m: nat)
      reads this
    {
      cp + need.chars <= CBUF && pp + need.ptrs <= PBUF && m + need.cmds <= CMDBUF
    }

    /** From label `newcmd`: one more program is read and linked in front. */
    method NewCmd(line: string, t: nat, c: CommandRec, ghost cmd: Command) returns (ok: bool, t': nat)
      requires NulFree(line) && t <= |line| && Holds(c, cmd)
      requires Room(NeedCmd(Tokenize(line[t..]), cmd), |cmd.pgms|)
      modifies this, cbuf, pbuf, pgmlist, next, c
      ensures Valid() && before == old(before) && (ok <==> LeadingWords(Tokenize(line[t..])) > 0)
      ensures ok ==> t <= t' <= |line| && Tokenize(line[t'..]) == AfterWords(Tokenize(line[t..]))
      ensures ok ==> Holds(c, WithWords(cmd, Tokenize(line[t..])))
      ensures ok ==> Room(NeedRest(Tokenize(line[t'..]), WithWords(cmd, Tokenize(line[t..]))), |cmd.pgms| + 1)
    {
      hide Tokenize, NulFree, NeedRest, NeedCmd, LeadingWords, ArgvAt, TextAt, NeedAcmd, ProgramsIn, FileAt;
      ghost var toks := Tokenize(line[t..]);
      ghost var k := LeadingWords(toks);
      ghost var cb, q, pb, p, lists := cbuf[..], cp, pbuf[..], pp, pgmlist[..];
      NeedCmdAcmd(toks, cmd);
      var n, cmd0 := Acmd(line, t);
      t' := t + n;
      ok := n > 0;
      if ok {
        AllStay(cb, q, pb, p, cbuf[..], cp, pbuf[..], pp);
        ProgramsGrow(cb, q, pb, p, lists, cmd.pgms, cbuf[..], cp, pbuf[..], pp, p, toks[..k]);
        next[cmd0] := c.pgm;
        c.pgm := cmd0;
      }
    }

    /** `isidentifier` on whatever string is at `i`. */
    method IsIdentifierAt(i: nat) returns (r: bool)
      requires Valid() && i <= CBUF
      ensures r == ScanIdentifier(cbuf[..], i)
    {
      var p := i;
      while p < CBUF && cbuf[p] != '\0'
        invariant i <= p <= CBUF && ScanIdentifier(cbuf[..], p) == ScanIdentifier(cbuf[..], i)
        decreases CBUF - p
      {
        if !IsIdChar(cbuf[p]) { return false; }
        p := p + 1;
      }
      return true;
    }

    /** `nexttoken` does not disturb what has been parsed. */
    method Token(line: string, t: nat, c: CommandRec, ghost cmd: Command) returns (n: nat, tok: nat)
      requires Holds(c, cmd) && NulFree(line) && t <= |line|
      requires cp + Peeked(Tokenize(line[t..])) <= CBUF
      modifies this`cp, cbuf
      ensures Holds(c, cmd) && t + n <= |line|
      ensures cp == old(cp) + Peeked(Tokenize(line[t..]))
      ensures n == 0 <==> Tokenize(line[t..]) == []
      ensures n > 0 ==> Tokenize(line[t..])[1..] == Tokenize(line[t + n..])
      ensures tok <= CBUF && (n > 0 ==> TextAt(cbuf[..], cp, tok, Tokenize(line[t..])[0]))
      ensures n == 0 ==> tok == cp
    {
      hide Tokenize, NulFree, TextAt, ProgramsIn, FileAt, ArgvAt;
      ghost var cb, q := cbuf[..], cp;
      n, tok := NextToken(line, t);
      AllStay(cb, q, pbuf[..], pp, cbuf[..], cp, pbuf[..], pp);
      ProgramsRemain(cb, q, pbuf[..], pp, cbuf[..], cp, pbuf[..], pp, pgmlist[..], cmd.pgms);
    }

    /** Where `parse` stands at label `newtoken`: the rest of the line decides
        between the outcomes that the whole line has, and it fits. */
    ghost predicate AtToken(line: string, t: nat, c: CommandRec, cmd: Command, all: Outcome)
      reads this, cbuf, pbuf, pgmlist, next, c
    {
      && t <= |line| && Holds(c, cmd)
      && Room(NeedRest(Tokenize(line[t..]), cmd), |cmd.pgms|)
      && ParseRest(Tokenize(line[t..]), cmd) == all
    }

    /** The result `r` and the filled record agree with the outcome. */
    ghost predicate Answers(r: int, c: CommandRec, all: Outcome)
      reads this, cbuf, pbuf, pgmlist, next, c
    {
      && Valid() && (all.Bad? ==> r == -1) && (all.Ok? ==> r == 1 && Holds(c, all.cmd))
      && (all.NoFileName? && Settled(before, cp) ==> r == (if ScanIdentifier(before, cp) then 1 else -1))
      && (all.NoFileName? ==> c.rstdin == cp || c.rstdout == cp)
    }

    /** The answer for a redirection whose file name is missing. */
    lemma {:induction false} AnswersMissing(r: int, c: CommandRec)
      requires Valid() && r == (if ScanIdentifier(cbuf[..], cp) then 1 else -1) && (c.rstdin == cp || c.rstdout == cp)
      ensures Answers(r, c, NoFileName)
    {
      SameLeftover(cbuf[..], before, cp);
    }

    lemma {:induction false} AnswersBad(c: CommandRec)
      requires Valid()
      ensures Answers(-1, c, Bad)
    {
    }

    /** `case PIPE`; `r` is 0 to continue at `newtoken`. */
    method Pipe(line: string, t: nat, c: CommandRec, ghost cmd: Command, ghost all: Outcome)
        returns (r: int, t': nat, ghost cmd': Command)
      requires NulFree(line) && t <= |line| && Holds(c, cmd)
      requires Room(NeedCmd(Tokenize(line[t..]), cmd), |cmd.pgms|)
      requires ParseCmd(Tokenize(line[t..]), cmd) == all
      modifies this, cbuf, pbuf, pgmlist, next, c
      ensures before == old(before)
      ensures r == 0 ==> AtToken(line, t', c, cmd', all) && t <= t'
      ensures r != 0 ==> Answers(r, c, all)
    {
      hide Tokenize, NulFree, NeedRest, NeedCmd, ParseRest, ParseCmd, LeadingWords, AfterWords;
      ParseCmdStep(Tokenize(line[t..]), cmd);
      cmd' := WithWords(cmd, Tokenize(line[t..]));
      var ok;
      ok, t' := NewCmd(line, t, c, cmd);
      r := if ok then 0 else -1;
    }

    /** `case BG`: nothing may follow. */
    method Background(line: string, t: nat, c: CommandRec, ghost cmd: Command, ghost all: Outcome) returns (r: int)
      requires NulFree(line) && t <= |line| && Holds(c, cmd)
      requires cp + Peeked(Tokenize(line[t..])) <= CBUF
      requires all == if Tokenize(line[t..]) == [] then Ok(cmd.(background := true)) else Bad
      modifies this, cbuf, c
      ensures before == old(before) && r != 0 && Answers(r, c, all)
    {
      hide Tokenize, NulFree, TextAt, Peeked, ProgramsIn, FileAt;
      var n, tok := Token(line, t, c, cmd);
      if n == 0 {
        c.background := true;
        r := 1;
      } else {
        r := -1;
      }
    }

    /** `case RIN` and `case RUT`, after the check that the redirection is the
        first of its kind.  Without a file name the code looks at what is left
        in the buffer from before. */
    method Redirect(input: bool, line: string, t: nat, c: CommandRec, ghost cmd: Command, ghost all: Outcome)
        returns (r: int, t': nat, ghost cmd': Command)
      requires NulFree(line) && t <= |line| && Holds(c, cmd)
      requires if input then cmd.rstdin.None? else cmd.rstdout.None?
      requires Room(NeedFile(Tokenize(line[t..]), cmd, input), |cmd.pgms|)
      requires all == ParseFile(Tokenize(line[t..]), cmd, input)
      modifies this, cbuf, c
      ensures before == old(before)
      ensures r == 0 ==> AtToken(line, t', c, cmd', all) && t <= t'
      ensures r != 0 ==> Answers(r, c, all)
    {
      hide Tokenize, NulFree, TextAt, ProgramsIn, ParseRest, NeedRest, IsIdentifier, FileAt, ScanIdentifier, Peeked,
        Settled, Buffers.Linked, Buffers.Answers;
      cmd' := cmd;
      ghost var toks := Tokenize(line[t..]);
      var n, tok := Token(line, t, c, cmd);
      if input { c.rstdin := tok; } else { c.rstdout := tok; }
      var ident := IsIdentifierAt(tok);
      t' := t + n;
      if n == 0 {
        r := if ident then 1 else -1;
        AnswersMissing(r, c);
      } else {
        TokenNulFree(line, t);
        ScanText(cbuf[..], cp, tok, toks[0]);
        FileSome(cbuf[..], cp, tok, toks[0]);
        r := if ident then 0 else -1;
        AnswersBad(c);
        cmd' := WithFile(cmd, input, toks[0]);
      }
    }

    /** From label `newtoken`: one token and its case; `r` is 0 to continue. */
    method NewToken(line: string, t: nat, c: CommandRec, ghost cmd: Command, ghost all: Outcome)
        returns (r: int, t': nat, ghost cmd': Command)
      requires NulFree(line) && AtToken(line, t, c, cmd, all)
      modifies this, cbuf, pbuf, pgmlist, next, c
      ensures before == old(before)
      ensures r == 0 ==> AtToken(line, t', c, cmd', all) && t < t'
      ensures r != 0 ==> Answers(r, c, all)
    {
      hide Tokenize, NulFree, TextAt, ParseRest, NeedRest, ParseCmd, NeedCmd, ParseFile, NeedFile, IsSpecToken,
        Peeked, ProgramsIn, FileAt, Buffers.Linked;
      ghost var toks := Tokenize(line[t..]);
      RestAny(toks, cmd);
      cmd' := cmd;
      var n, tok := Token(line, t, c, cmd);
      if n == 0 { return 1, t, cmd; }
      t' := t + n;
      TokenText(line, t, cbuf[..], cp, tok);
      var ch := cbuf[tok];
      if ch == '|' {
        RestPipe(toks, cmd);
        r, t', cmd' := Pipe(line, t', c, cmd, all);
      } else if ch == '&' {
        RestBackground(toks, cmd);
        r := Background(line, t', c, cmd, all);
      } else if ch == '<' {
        RestRedirect(toks, cmd, true);
        FileNull(cbuf[..], cp, c.rstdin, cmd.rstdin);
        if c.rstdin != NULL {
          r := -1;
        } else {
          r, t', cmd' := Redirect(true, line, t', c, cmd, all);
        }
      } else if ch == '>' {
        RestRedirect(toks, cmd, false);
        FileNull(cbuf[..], cp, c.rstdout, cmd.rstdout);
        if c.rstdout != NULL {
          r := -1;
        } else {
          r, t', cmd' := Redirect(false, line, t', c, cmd, all);
        }
      } else {
        RestWord(toks, cmd);
        r := -1;
      }
    }

    /** `parse`: for a line that fits the buffers the result and the filled record
        are what the line means. */
    method Parse(line: string, c: CommandRec) returns (r: int)
      requires Valid() && NulFree(line) && Fits(line)
      modifies this, cbuf, pbuf, pgmlist, next, c
      ensures Valid()
      ensures ParseLine(line).Bad? ==> r == -1
      ensures ParseLine(line).Ok? ==> r == 1 && Holds(c, ParseLine(line).cmd)
      ensures ParseLine(line).Ok? ==> PgmsAt(c.pgm, ParseLine(line).cmd.pgms)
      ensures ParseLine(line).NoFileName? ==> c.rstdin == cp || c.rstdout == cp
      ensures ParseLine(line).NoFileName? && cp <= CBUF && Settled(old(cbuf[..]), cp) ==>
        r == if ScanIdentifier(old(cbuf[..]), cp) then 1 else -1
    {
      hide Tokenize, NulFree, NeedRest, NeedCmd, ParseRest, ParseCmd;
      Init();
      c.rstdin, c.rstdout, c.background, c.pgm := NULL, NULL, false, NULL;
      ghost var all, cmd := ParseLine(line), EMPTY;
      assert line[0..] == line;
      var t;
      r, t, cmd := Pipe(line, 0, c, EMPTY, all);
      while r == 0
        invariant r == 0 ==> AtToken(line, t, c, cmd, all)
        invariant r != 0 ==> Answers(r, c, all)
        invariant before == old(cbuf[..])
        decreases r == 0, if r == 0 then |line| - t else 0
      {
        r, t, cmd := NewToken(line, t, c, cmd, all);
      }
      if all.Ok? {
        FollowNext(all.cmd.pgms, |all.cmd.pgms|);
      }
    }
  }

  /** `Command`, the record filled in by `parse`; strings and lists are positions. */
  class CommandRec {
    var pgm: int
    var rstdin: int
    var rstdout: int
    var background: bool

    constructor () {
      pgm, rstdin, rstdout, background := NULL, NULL, NULL, false;
    }
  }

  /** Position `i` among the leading words of `toks`. */
  lemma {:induction false} AtWord(toks: seq<string>, i: nat)
    requires i <= LeadingWords(toks)
    ensures i == LeadingWords(toks) <==> i == |toks| || IsSpecToken(toks[i])
    ensures CharsOf(toks[..i]) + Peeked(toks[i..]) <= NeedAcmd(toks).chars
    ensures i < |toks| ==>
            CharsOf(toks[..i + 1]) == CharsOf(toks[..i]) + Peeked(toks[i..]) && toks[i..][1..] == toks[i + 1..]
    ensures i == 0 ==> CharsOf(toks[..i]) == 0 && toks[i..] == toks
  {
    LeadingWordsAt(toks, i);
    CharsGrow(toks, i, LeadingWords(toks));
    if i < |toks| { CharsSnoc(toks, i); }
  }

  function AfterWords(toks: seq<string>): (r: seq<string>) { toks[LeadingWords(toks)..] }

  function WithWords(c: Command, toks: seq<string>): (r: Command) {
    c.(pgms := [toks[..LeadingWords(toks)]] + c.pgms)
  }

  lemma {:induction false} NeedCmdAcmd(toks: seq<string>, c: Command)
    ensures NeedAcmd(toks).Within(NeedCmd(toks, c)) && NeedAcmd(toks).cmds == 1
    ensures LeadingWords(toks) > 0 ==>
            NeedCmd(toks, c) == NeedAcmd(toks).Plus(NeedRest(AfterWords(toks), WithWords(c, toks)))
  {
  }

  lemma {:induction false} TokenNulFree(line: string, t: nat)
    requires NulFree(line) && t <= |line| && Tokenize(line[t..]) != []
    ensures NulFree(Tokenize(line[t..])[0])
  {
    TokenizeWellFormed(line[t..]);
    var tok := Tokenize(line[t..])[0];
    assert IsWord(tok) || IsSpecToken(tok);
  }

  lemma {:induction false} ParseCmdStep(toks: seq<string>, c: Command)
    ensures ParseCmd(toks, c) ==
            if LeadingWords(toks) == 0 then Bad else ParseRest(AfterWords(toks), WithWords(c, toks))
  {
  }

  /** `isidentifier` on the characters from `i` up to a null byte. */
  function ScanIdentifier(buf: seq<char>, i: nat): (r: bool)
    requires i <= |buf|
    decreases |buf| - i
  {
    i == |buf| || buf[i] == '\0' || (IsIdChar(buf[i]) && ScanIdentifier(buf, i + 1))
  }

  /** The scan from `i` ends inside the buffer. */
  predicate Settled(buf: seq<char>, i: nat) {
    exists j :: i <= j < |buf| && !IsIdChar(buf[j])
  }

  /** What the scan says depends on the buffer from the cursor on only. */
  lemma {:induction false} SameLeftover(buf: seq<char>, before: seq<char>, i: nat)
    requires |buf| == |before| && i <= |buf| && forall j | i <= j < |buf| :: buf[j] == before[j]
    ensures ScanIdentifier(buf, i) == ScanIdentifier(before, i)
    decreases |buf| - i
  {
    if i < |buf| { SameLeftover(buf, before, i + 1); }
  }

  /** In a buffer that holds only null bytes behind the cursor the missing name reads as the empty
      string, which passes for an identifier. */
  lemma {:induction false} EmptyLeftover(buf: seq<char>, i: nat)
    requires i < |buf| && buf[i] == '\0'
    ensures Settled(buf, i) && ScanIdentifier(buf, i)
  {
    assert !IsIdChar(buf[i]);
  }

  lemma {:induction false} ScanText(buf: seq<char>, cp: nat, i: nat, s: string)
    requires TextAt(buf, cp, i, s) && NulFree(s)
    ensures ScanIdentifier(buf, i) <==> IsIdentifier(s)
    decreases |s|
  {
    if s != "" {
      assert buf[i] == buf[i..i + |s|][0];
      assert buf[i + 1..i + |s|] == buf[i..i + |s|][1..];
      ScanText(buf, cp, i + 1, s[1..]);
      assert IsIdentifier(s) <==> IsIdChar(s[0]) && IsIdentifier(s[1..]) by { assert s == [s[0]] + s[1..]; }
    }
  }

  function WithFile(c: Command, input: bool, name: string): (r: Command) {
    if input then c.(rstdin := Some(name)) else c.(rstdout := Some(name))
  }

  /** `ParseRest` and `NeedRest` behind a redirection operator. */
  function ParseFile(toks: seq<string>, c: Command, input: bool): (r: Outcome) {
    if toks == [] then NoFileName
    else if !IsIdentifier(toks[0]) then Bad
    else ParseRest(toks[1..], WithFile(c, input, toks[0]))
  }

  function NeedFile(toks: seq<string>, c: Command, input: bool): (n: Need) {
    Need(Peeked(toks), 0, 0).Plus(
      if toks != [] && IsIdentifier(toks[0]) then NeedRest(toks[1..], WithFile(c, input, toks[0])) else NOTHING)
  }

  // ----- the branches of the switch in `parse` -----

  lemma {:induction false} RestAny(toks: seq<string>, c: Command)
    ensures toks == [] ==> ParseRest(toks, c) == Ok(c)
    ensures Need(Peeked(toks), 0, 0).Within(NeedRest(toks, c))
  {
  }

  lemma {:induction false} RestPipe(toks: seq<string>, c: Command)
    requires toks != [] && toks[0] == "|"
    ensures ParseRest(toks, c) == ParseCmd(toks[1..], c)
    ensures NeedRest(toks, c) == Need(Peeked(toks), 0, 0).Plus(NeedCmd(toks[1..], c))
  {
    hide ParseCmd, NeedCmd;
  }

  lemma {:induction false} RestBackground(toks: seq<string>, c: Command)
    requires toks != [] && toks[0] == "&"
    ensures ParseRest(toks, c) == if toks[1..] == [] then Ok(c.(background := true)) else Bad
    ensures NeedRest(toks, c) == Need(Peeked(toks) + Peeked(toks[1..]), 0, 0)
  {
  }

  lemma {:induction false} RestRedirect(toks: seq<string>, c: Command, input: bool)
    requires toks != [] && toks[0] == if input then "<" else ">"
    ensures (if input then c.rstdin else c.rstdout).Some? ==> ParseRest(toks, c) == Bad
    ensures (if input then c.rstdin else c.rstdout).None? ==>
            && ParseRest(toks, c) == ParseFile(toks[1..], c, input)
            && NeedRest(toks, c) == Need(Peeked(toks), 0, 0).Plus(NeedFile(toks[1..], c, input))
  {
    if |toks| > 1 { assert toks[1..][1..] == toks[2..]; }
  }

  lemma {:induction false} RestWord(toks: seq<string>, c: Command)
    requires toks != [] && !IsSpecToken(toks[0])
    ensures ParseRest(toks, c) == Bad
  {
  }

  /** The character that the switch in `parse` looks at tells the token. */
  lemma {:induction false} TokenText(line: string, t: nat, cbuf: seq<char>, cp: nat, tok: nat)
    requires NulFree(line) && t <= |line| && Tokenize(line[t..]) != []
    requires TextAt(cbuf, cp, tok, Tokenize(line[t..])[0])
    ensures tok < |cbuf|
    ensures var first, ch := Tokenize(line[t..])[0], cbuf[tok];
            if IsSpec(ch) then first == [ch] else !IsSpecToken(first)
  {
    hide Tokenize;
    TokenizeWellFormed(line[t..]);
    var first := Tokenize(line[t..])[0];
    assert cbuf[tok..tok + |first|][0] == cbuf[tok];
  }

  // ----- the space a printed command takes -----

  /** Every pipe is read twice, by `acmd` and by `parse`. */
  function PgmsNeed(pgms: seq<seq<string>>): (n: Need)
  {
    if pgms == [] then NOTHING
    else
      Need(CharsOf(pgms[0]), |pgms[0]| + 1, 1).Plus(
        if |pgms| == 1 then NOTHING else Need(4, 0, 0).Plus(PgmsNeed(pgms[1..])))
  }

  /** So is the first token behind the programs. */
  function CommandNeed(c: Command, outFirst: bool): (n: Need)
  {
    var tail := PrintTail(c, outFirst);
    PgmsNeed(c.pgms).Plus(Need(Peeked(tail) + CharsOf(tail), 0, 0))
  }

  lemma {:induction false} NeedOnePgm(words: seq<string>, rest: seq<string>, c: Command)
    requires words != [] && Words(words) && (rest != [] ==> IsSpecToken(rest[0]))
    ensures NeedCmd(words + rest, c) ==
            Need(CharsOf(words) + Peeked(rest), |words| + 1, 1).Plus(NeedRest(rest, c.(pgms := [words] + c.pgms)))
  {
    hide NeedRest, CharsOf;
    LeadingWordsIs(words, rest);
    assert (words + rest)[|words|..] == rest && (words + rest)[..|words|] == words;
  }

  lemma {:induction false} NeedPgms(pgms: seq<seq<string>>, rest: seq<string>, c: Command)
    requires pgms != [] && forall p | 0 <= p < |pgms| :: pgms[p] != [] && Words(pgms[p])
    requires rest != [] ==> IsSpecToken(rest[0])
    ensures NeedCmd(PrintPgms(pgms) + rest, c) ==
            PgmsNeed(pgms).Plus(Need(Peeked(rest), 0, 0)).Plus(NeedRest(rest, c.(pgms := pgms + c.pgms)))
    decreases |pgms|
  {
    hide NeedRest, NeedCmd, CharsOf, PrintPgms, Words;
    if |pgms| == 1 {
      PrintOne(pgms);
      NeedOnePgm(pgms[0], rest, c);
    } else {
      var c' := c.(pgms := pgms[1..] + c.pgms);
      var more := ["|"] + (pgms[0] + rest);
      PrintSplit(pgms, rest);
      NeedPgms(pgms[1..], more, c);
      assert more[1..] == pgms[0] + rest;
      RestPipe(more, c');
      NeedOnePgm(pgms[0], rest, c');
      assert [pgms[0]] + (pgms[1..] + c.pgms) == pgms + c.pgms;
    }
  }

  lemma {:induction false} NeedRedirection(input: bool, c: Command, file: Option<string>, rest: seq<string>)
    requires file.Some? ==> IsIdentifier(file.value)
    requires if input then c.rstdin.None? else c.rstdout.None?
    ensures var op := PrintRedirection(if input then "<" else ">", file);
            NeedRest(op + rest, c) ==
            Need(CharsOf(op), 0, 0).Plus(NeedRest(rest, if input then c.(rstdin := file) else c.(rstdout := file)))
  {
    hide NeedRest;
    var op := PrintRedirection(if input then "<" else ">", file);
    if file.Some? {
      var toks := op + rest;
      RestRedirect(toks, c, input);
      assert toks[1..] == [file.value] + rest && toks[1..][1..] == rest && toks[1..][0] == file.value;
      assert op[1..] == [file.value] && op[1..][1..] == [];
      assert CharsOf(op[1..]) == |file.value| + 1;
      assert CharsOf(op) == |op[0]| + 1 + CharsOf(op[1..]);
    } else {
      assert op + rest == rest;
    }
  }

  lemma {:induction false} CharsConcat(a: seq<string>, b: seq<string>)
    ensures CharsOf(a + b) == CharsOf(a) + CharsOf(b)
  {
    if a == [] {
      assert a + b == b;
    } else {
      CharsConcat(a[1..], b);
      assert (a + b)[1..] == a[1..] + b;
    }
  }

  lemma {:induction false} NeedTail(c: Command, outFirst: bool)
    requires WellFormed(c)
    ensures NeedRest(PrintTail(c, outFirst), Command(c.pgms, None, None, false)) ==
            Need(CharsOf(PrintTail(c, outFirst)), 0, 0)
  {
    hide NeedRest, WellFormed, CharsOf;
    WellFormedFiles(c);
    var bg := if c.background then ["&"] else [];
    var c0 := Command(c.pgms, None, None, false);
    var i, o := PrintRedirection("<", c.rstdin), PrintRedirection(">", c.rstdout);
    NeedBackground(c);
    if outFirst {
      assert PrintTail(c, outFirst) == o + (i + bg);
      NeedRedirection(false, c0, c.rstdout, i + bg);
      NeedRedirection(true, c0.(rstdout := c.rstdout), c.rstdin, bg);
      CharsConcat(o, i + bg);
      CharsConcat(i, bg);
    } else {
      assert PrintTail(c, outFirst) == i + (o + bg);
      NeedRedirection(true, c0, c.rstdin, o + bg);
      NeedRedirection(false, c0.(rstdin := c.rstdin), c.rstdout, bg);
      CharsConcat(i, o + bg);
      CharsConcat(o, bg);
    }
  }

  lemma {:induction false} WellFormedFiles(c: Command)
    requires WellFormed(c)
    ensures c.rstdin.Some? ==> IsIdentifier(c.rstdin.value)
    ensures c.rstdout.Some? ==> IsIdentifier(c.rstdout.value)
  {
  }

  lemma {:induction false} NeedBackground(c: Command)
    ensures var bg := if c.background then ["&"] else [];
            NeedRest(bg, c.(background := false)) == Need(CharsOf(bg), 0, 0)
  {
    hide NeedRest;
    if c.background {
      RestBackground(["&"], c.(background := false));
      assert ["&"][1..] == [];
    } else {
      NeedEnd(c.(background := false));
    }
  }

  lemma {:induction false} NeedEnd(c: Command)
    ensures NeedRest([], c) == NOTHING
  {
  }

  /** A printed command fits, in whatever layout, exactly when its words, programs
      and redirections do; then parsing the line gives the command back. */
  lemma {:induction false} PrintedLine(c: Command, outFirst: bool, line: string)
    requires WellFormed(c) && Spells(line, Print(c, outFirst))
    ensures Fits(line) <==> CommandNeed(c, outFirst).Within(Need(CBUF, PBUF, CMDBUF))
    ensures ParseLine(line) == Ok(c)
  {
    hide NeedCmd, NeedRest, Spells, Tokenize;
    ParseUndoesPrint(c, outFirst, line);
    PrintWellFormed(c, outFirst);
    TokenizeSpelled(line, Print(c, outFirst));
    var tail := PrintTail(c, outFirst);
    NeedPgms(c.pgms, tail, EMPTY);
    NeedTail(c, outFirst);
    assert c.pgms + [] == c.pgms;
  }
}
