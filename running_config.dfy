/**
 * The running-configuration parser: a pass over the stripped lines of the
 * device's configuration with a cursor naming the interface whose block is
 * open. An `interface` line (any case) opens a fresh, empty entry named by its
 * second word, replacing an earlier entry of that name in place; a `!` line
 * closes the block; inside a block a `description` line sets the description
 * and every other non-empty line is appended to the entry's configuration.
 *
 * The reference definition below describes the result without a cursor. Each
 * line is first classified on its own (`Classify`); the entry of a name is
 * then read off the block that follows the LAST `interface` line declaring
 * it, up to the next `interface` or `!` line. The reference functions take a
 * bound `i` and look only at the first `i` tokens.
 */
module RunningConfig {
  import opened Wrappers
  import opened Text

  /** One interface block: its configuration lines in order and its description, if any. */
  datatype Interface = Interface(config: seq<string>, description: Option<string>)

  /**
   * The parser's dictionary: `entries` maps names to interfaces and `names`
   * lists them in insertion order (re-assigning a key keeps its position).
   */
  datatype InterfaceTable = InterfaceTable(names: seq<string>, entries: map<string, Interface>)

  /** An `interface` line without a second word: indexing the split line fails. */
  datatype ParseError = MissingInterfaceName(line: nat)

  /** What one stripped configuration line means to the parser. */
  datatype Token =
    | Open(name: string)        // `interface <name> ...`
    | OpenUnnamed               // `interface` with no second word
    | Close                     // a line starting with `!`
    | Blank                     // the empty line
    | Describe(text: string)    // `description <text>`
    | Command(line: string)     // any other line

  predicate IsInterfaceLine(line: string) {
    StartsWith(Lower(line), "interface")
  }

  predicate IsDescriptionLine(line: string) {
    StartsWith(Lower(line), "description")
  }

  /**
   * The classification of one stripped line, in the order the parser tests:
   * `interface` first, then `!`, then the empty line, then `description`.
   * The description text is what follows the 11 characters of the keyword.
   */
  function Classify(line: string): Token {
    if IsInterfaceLine(line) then
      var words := Words(line);
      if |words| >= 2 then Open(words[1]) else OpenUnnamed
    else if StartsWith(line, "!") then Close
    else if line == [] then Blank
    else if IsDescriptionLine(line) then Describe(Strip(line[11..]))
    else Command(line)
  }

  /** The tokens of the lines `raw`, each stripped and classified. */
  function TokensOf(raw: seq<string>): (ts: seq<Token>)
    ensures |ts| == |raw|
  {
    if raw == [] then [] else TokensOf(raw[..|raw| - 1]) + [Classify(Strip(raw[|raw| - 1]))]
  }

  /** The tokens of a configuration: one per line of `config.splitlines()`. */
  function Tokens(config: string): (ts: seq<Token>)
    ensures |ts| == |SplitLines(config)|
  {
    TokensOf(SplitLines(config))
  }

  /** The token of the line at index `i` is that line, stripped and classified. */
  lemma {:induction false} TokenAt(raw: seq<string>, i: nat)
    requires i < |raw|
    ensures TokensOf(raw)[i] == Classify(Strip(raw[i]))
  {
    if i < |raw| - 1 {
      TokenAt(raw[..|raw| - 1], i);
    }
  }

  /** The token of line `i`, case by case in the parser's order of tests. */
  lemma TokenCases(raw: seq<string>, i: nat)
    requires i < |raw|
    ensures var line, t := Strip(raw[i]), TokensOf(raw)[i];
      && (IsInterfaceLine(line) && |Words(line)| >= 2 ==> t == Open(Words(line)[1]))
      && (IsInterfaceLine(line) && |Words(line)| < 2 ==> t == OpenUnnamed)
      && (!IsInterfaceLine(line) && StartsWith(line, "!") ==> t == Close)
      && (!IsInterfaceLine(line) && !StartsWith(line, "!") && line == [] ==> t == Blank)
      && (!IsInterfaceLine(line) && !StartsWith(line, "!") && line != [] && IsDescriptionLine(line) ==>
            t == Describe(Strip(line[11..])))
      && (!IsInterfaceLine(line) && !StartsWith(line, "!") && line != [] && !IsDescriptionLine(line) ==>
            t == Command(line))
  {
    TokenAt(raw, i);
  }

  /** A token after which no later line belongs to the current block. */
  predicate ClosesBlock(t: Token) {
    t.Open? || t.OpenUnnamed? || t.Close?
  }

  /** Index of the first unnamed `interface` line among the first `i` tokens, or `i`. */
  function FirstUnnamed(ts: seq<Token>, i: nat): (u: nat)
    requires i <= |ts|
    ensures u <= i
    ensures u < i ==> ts[u].OpenUnnamed?
  {
    if i == 0 then 0
    else
      var f := FirstUnnamed(ts, i - 1);
      if f < i - 1 then f
      else if ts[i - 1].OpenUnnamed? then i - 1
      else i
  }

  /** The names of the `interface` lines among the first `i` tokens, in order, repeats included. */
  function DeclaredNames(ts: seq<Token>, i: nat): seq<string>
    requires i <= |ts|
  {
    if i == 0 then []
    else DeclaredNames(ts, i - 1) + (if ts[i - 1].Open? then [ts[i - 1].name] else [])
  }

  /** The first occurrence of every element, in order. */
  function Dedup(xs: seq<string>): seq<string> {
    if xs == [] then []
    else
      var init := xs[..|xs| - 1];
      Dedup(init) + (if xs[|xs| - 1] in init then [] else [xs[|xs| - 1]])
  }

  /** Index of the last `interface` line declaring `n` among the first `i` tokens, or -1. */
  function LastDeclaration(ts: seq<Token>, i: nat, n: string): (k: int)
    requires i <= |ts|
    ensures -1 <= k < i
    ensures k >= 0 ==> ts[k] == Open(n)
  {
    if i == 0 then -1
    else if ts[i - 1] == Open(n) then i - 1
    else LastDeclaration(ts, i - 1, n)
  }

  /** The first index in `[j, i)` holding a token that closes a block, or `i`. */
  function BlockEnd(ts: seq<Token>, j: nat, i: nat): (e: nat)
    requires j <= i <= |ts|
    ensures j <= e <= i
    ensures e < i ==> ClosesBlock(ts[e])
    decreases i - j
  {
    if j == i then i
    else if ClosesBlock(ts[j]) then j
    else BlockEnd(ts, j + 1, i)
  }

  /** The configuration lines among the tokens in `[a, b)`: its commands, in order. */
  function ConfigLinesOf(ts: seq<Token>, a: nat, b: nat): seq<string>
    requires a <= b <= |ts|
    decreases b
  {
    if a == b then []
    else ConfigLinesOf(ts, a, b - 1) + (if ts[b - 1].Command? then [ts[b - 1].line] else [])
  }

  /** The description among the tokens in `[a, b)`: the text of the last `description` line. */
  function DescriptionOf(ts: seq<Token>, a: nat, b: nat): Option<string>
    requires a <= b <= |ts|
    decreases b
  {
    if a == b then None
    else if ts[b - 1].Describe? then Some(ts[b - 1].text)
    else DescriptionOf(ts, a, b - 1)
  }

  /** The entry read off the block opened at index `k`, as far as the first `i` tokens go. */
  function EntryAt(ts: seq<Token>, k: nat, i: nat): Interface
    requires k < i <= |ts|
  {
    var e := BlockEnd(ts, k + 1, i);
    Interface(ConfigLinesOf(ts, k + 1, e), DescriptionOf(ts, k + 1, e))
  }

  /** The table the parser builds from `ts` when every `interface` line is named. */
  function ParsedTable(ts: seq<Token>): InterfaceTable {
    DeclarationsFound(ts, |ts|);
    InterfaceTable(
      Dedup(DeclaredNames(ts, |ts|)),
      map n | n in DeclaredNames(ts, |ts|) :: EntryAt(ts, LastDeclaration(ts, |ts|, n), |ts|))
  }

  /** What parsing `config` yields: the first unnamed `interface` line, or the table. */
  function ParseOutcome(config: string): Result<InterfaceTable, ParseError> {
    var ts := Tokens(config);
    var u := FirstUnnamed(ts, |ts|);
    if u < |ts| then Failure(MissingInterfaceName(u)) else Success(ParsedTable(ts))
  }

  // ---------------------------------------------------------------------------
  // Properties of the reference definition

  /** `Dedup` keeps every element once. */
  lemma {:induction false} DedupMembers(xs: seq<string>)
    ensures forall x :: x in Dedup(xs) <==> x in xs
    ensures forall i, j :: 0 <= i < j < |Dedup(xs)| ==> Dedup(xs)[i] != Dedup(xs)[j]
  {
    if xs != [] {
      var init := xs[..|xs| - 1];
      DedupMembers(init);
      assert xs == init + [xs[|xs| - 1]];
    }
  }

  /** On a list without repeats `Dedup` is the identity. */
  lemma {:induction false} DedupDistinct(xs: seq<string>)
    requires forall i, j :: 0 <= i < j < |xs| ==> xs[i] != xs[j]
    ensures Dedup(xs) == xs
  {
    if xs != [] {
      var init := xs[..|xs| - 1];
      DedupDistinct(init);
      assert xs == init + [xs[|xs| - 1]];
    }
  }

  /** Appending a name extends the de-duplicated list only when the name is new. */
  lemma DedupSnoc(xs: seq<string>, x: string)
    ensures Dedup(xs + [x]) == Dedup(xs) + (if x in xs then [] else [x])
  {
    assert (xs + [x])[..|xs|] == xs;
  }

  /** The table lists every interface it maps, each once. */
  lemma ParsedTableShape(ts: seq<Token>)
    ensures forall n :: n in ParsedTable(ts).entries <==> n in ParsedTable(ts).names
    ensures forall i, j :: 0 <= i < j < |ParsedTable(ts).names| ==> ParsedTable(ts).names[i] != ParsedTable(ts).names[j]
  {
    DedupMembers(DeclaredNames(ts, |ts|));
  }

  /** When no interface name is declared twice, the table lists one interface per `interface` line, in order. */
  lemma DistinctDeclarations(ts: seq<Token>)
    requires forall i, j :: 0 <= i < j < |DeclaredNames(ts, |ts|)| ==> DeclaredNames(ts, |ts|)[i] != DeclaredNames(ts, |ts|)[j]
    ensures ParsedTable(ts).names == DeclaredNames(ts, |ts|)
  {
    DedupDistinct(DeclaredNames(ts, |ts|));
  }

  /** No `interface` line after the one `LastDeclaration` finds declares the same name. */
  lemma {:induction false} LastDeclarationIsLast(ts: seq<Token>, i: nat, n: string, j: int)
    requires i <= |ts| && LastDeclaration(ts, i, n) < j < i
    ensures ts[j] != Open(n)
  {
    if j < i - 1 {
      LastDeclarationIsLast(ts, i - 1, n, j);
    }
  }

  /** A name has a last declaration exactly when it is declared at all. */
  lemma {:induction false} LastDeclarationFound(ts: seq<Token>, i: nat, n: string)
    requires i <= |ts|
    ensures LastDeclaration(ts, i, n) >= 0 <==> n in DeclaredNames(ts, i)
  {
    if i > 0 {
      LastDeclarationFound(ts, i - 1, n);
    }
  }

  /** The declared names are exactly the names with a last declaration. */
  lemma DeclarationsFound(ts: seq<Token>, i: nat)
    requires i <= |ts|
    ensures forall n :: n in DeclaredNames(ts, i) <==> LastDeclaration(ts, i, n) >= 0
  {
    forall n ensures n in DeclaredNames(ts, i) <==> LastDeclaration(ts, i, n) >= 0 {
      LastDeclarationFound(ts, i, n);
    }
  }

  /** No line before the one `FirstUnnamed` finds is an unnamed `interface` line. */
  lemma {:induction false} FirstUnnamedIsFirst(ts: seq<Token>, i: nat, j: int)
    requires i <= |ts| && 0 <= j < FirstUnnamed(ts, i)
    ensures !ts[j].OpenUnnamed?
  {
    if j < FirstUnnamed(ts, i - 1) {
      FirstUnnamedIsFirst(ts, i - 1, j);
    }
  }

  /** Once found, the first unnamed line stays the first one as more tokens are read. */
  lemma {:induction false} FirstUnnamedStays(ts: seq<Token>, i: nat, m: nat)
    requires i <= m <= |ts| && FirstUnnamed(ts, i) < i
    ensures FirstUnnamed(ts, m) == FirstUnnamed(ts, i)
    decreases m
  {
    if m > i {
      FirstUnnamedStays(ts, i, m - 1);
    }
  }

  /** No line inside a block closes it. */
  lemma {:induction false} BlockEndIsFirst(ts: seq<Token>, j: nat, i: nat, m: nat)
    requires j <= m < i <= |ts| && m < BlockEnd(ts, j, i)
    ensures !ClosesBlock(ts[m])
    decreases i - j
  {
    if j < m {
      BlockEndIsFirst(ts, j + 1, i, m);
    }
  }

  /** Reading one more token moves a block's end only while the block is open. */
  lemma {:induction false} BlockEndGrow(ts: seq<Token>, j: nat, i: nat)
    requires j <= i < |ts|
    ensures BlockEnd(ts, j, i + 1) ==
      if BlockEnd(ts, j, i) < i then BlockEnd(ts, j, i)
      else if ClosesBlock(ts[i]) then i else i + 1
    decreases i - j
  {
    if j < i && !ClosesBlock(ts[j]) {
      BlockEndGrow(ts, j + 1, i);
    }
  }

  /** The configuration lines in a range are exactly the lines of its commands. */
  lemma {:induction false} ConfigLinesMembers(ts: seq<Token>, a: nat, b: nat, l: string)
    requires a <= b <= |ts|
    ensures l in ConfigLinesOf(ts, a, b) <==> exists m :: a <= m < b && ts[m] == Command(l)
    decreases b
  {
    if a < b {
      ConfigLinesMembers(ts, a, b - 1, l);
    }
  }

  /**
   * A line after a `!` line and before the next `interface` line lies inside
   * no interface's block, so no entry takes it.
   */
  lemma OrphanLine(ts: seq<Token>, c: nat, m: nat, n: string)
    requires c < m < |ts| && ts[c] == Close
    requires forall j :: c < j < m ==> !ClosesBlock(ts[j])
    ensures var k := LastDeclaration(ts, |ts|, n);
      k >= 0 ==> !(k < m < BlockEnd(ts, k + 1, |ts|))
  {
    var k := LastDeclaration(ts, |ts|, n);
    if k >= 0 && k < m < BlockEnd(ts, k + 1, |ts|) {
      assert k < c;
      BlockEndIsFirst(ts, k + 1, |ts|, c);
    }
  }

  // ---------------------------------------------------------------------------
  // The cursor-driven pass and the reference definition

  /** The parser's variables: the table built so far and the interface whose block is open. */
  datatype ParserState = ParserState(names: seq<string>, entries: map<string, Interface>, cursor: Option<string>)

  /** The effect of one line inside an open block on its entry. */
  function Absorb(e: Interface, t: Token): Interface {
    match t
    case Describe(d) => e.(description := Some(d))
    case Command(c) => e.(config := e.config + [c])
    case _ => e
  }

  /** The parser's reaction to one token. */
  function Step(s: ParserState, t: Token): ParserState {
    match t
    case Open(n) =>
      ParserState(if n in s.entries then s.names else s.names + [n], s.entries[n := Interface([], None)], Some(n))
    case Close => s.(cursor := None)
    case _ =>
      if s.cursor.Some? && s.cursor.value in s.entries then
        s.(entries := s.entries[s.cursor.value := Absorb(s.entries[s.cursor.value], t)])
      else s
  }

  /** The parser's variables after the first `i` tokens of `ts`. */
  function Run(ts: seq<Token>, i: nat): ParserState
    requires i <= |ts|
  {
    if i == 0 then ParserState([], map[], None) else Step(Run(ts, i - 1), ts[i - 1])
  }

  /** The entry of the block opened at `k` does not change once the block is closed. */
  lemma EntryKept(ts: seq<Token>, k: nat, i: nat)
    requires k < i < |ts| && (BlockEnd(ts, k + 1, i) < i || ClosesBlock(ts[i]))
    ensures EntryAt(ts, k, i + 1) == EntryAt(ts, k, i) && BlockEnd(ts, k + 1, i + 1) <= i
  {
    BlockEndGrow(ts, k + 1, i);
  }

  /** An open block absorbs a token that does not close it. */
  lemma EntryExtended(ts: seq<Token>, k: nat, i: nat)
    requires k < i < |ts| && BlockEnd(ts, k + 1, i) == i && !ClosesBlock(ts[i])
    ensures EntryAt(ts, k, i + 1) == Absorb(EntryAt(ts, k, i), ts[i]) && BlockEnd(ts, k + 1, i + 1) == i + 1
  {
    BlockEndGrow(ts, k + 1, i);
  }

  /**
   * What the parser state after the first `i` tokens records about the name
   * `n`: an entry exactly when `n` is declared, that entry read off the block
   * of its last declaration, and the cursor on `n` exactly when that block is
   * still open.
   */
  ghost predicate NameTracked(ts: seq<Token>, i: nat, s: ParserState, n: string)
    requires i <= |ts|
  {
    var k := LastDeclaration(ts, i, n);
    && (n in s.entries <==> k >= 0)
    && (n in s.entries ==> s.entries[n] == EntryAt(ts, k, i) && (BlockEnd(ts, k + 1, i) == i <==> s.cursor == Some(n)))
    && (s.cursor == Some(n) ==> n in s.entries)
  }

  /** A declaration of `n` opens an empty block and moves the cursor to it. */
  lemma StepDeclares(ts: seq<Token>, i: nat, s: ParserState, n: string)
    requires i < |ts| && ts[i] == Open(n)
    ensures NameTracked(ts, i + 1, Step(s, ts[i]), n)
  {
  }

  /** A name without an entry stays without one unless the token declares it. */
  lemma StepUndeclared(ts: seq<Token>, i: nat, s: ParserState, n: string)
    requires i < |ts| && NameTracked(ts, i, s, n) && n !in s.entries && ts[i] != Open(n)
    ensures NameTracked(ts, i + 1, Step(s, ts[i]), n)
  {
  }

  /** A step that neither declares `n` nor feeds its open block leaves the entry of `n` alone and the cursor off it. */
  lemma StepOther(s: ParserState, t: Token, n: string)
    requires t != Open(n) && !t.OpenUnnamed? && (s.cursor != Some(n) || ClosesBlock(t))
    ensures n in Step(s, t).entries <==> n in s.entries
    ensures n in s.entries ==> Step(s, t).entries[n] == s.entries[n]
    ensures Step(s, t).cursor != Some(n)
  {
  }

  /**
   * A token other than a declaration of `n` leaves the block of `n` as it is
   * when that block is already closed or when the token closes it.
   */
  lemma StepLeaves(ts: seq<Token>, i: nat, s: ParserState, n: string)
    requires i < |ts| && NameTracked(ts, i, s, n) && n in s.entries && ts[i] != Open(n) && !ts[i].OpenUnnamed?
    requires s.cursor != Some(n) || ClosesBlock(ts[i])
    ensures NameTracked(ts, i + 1, Step(s, ts[i]), n)
  {
    var k := LastDeclaration(ts, i, n);
    assert LastDeclaration(ts, i + 1, n) == k;
    StepOther(s, ts[i], n);
    EntryKept(ts, k, i);
  }

  /** A token that does not close blocks is absorbed into the open block of `n`. */
  lemma StepAbsorbs(ts: seq<Token>, i: nat, s: ParserState, n: string)
    requires i < |ts| && NameTracked(ts, i, s, n) && s.cursor == Some(n) && !ClosesBlock(ts[i])
    ensures NameTracked(ts, i + 1, Step(s, ts[i]), n)
  {
    EntryExtended(ts, LastDeclaration(ts, i, n), i);
  }

  /** One step of the pass keeps what the state records about `n`, for every token but an unnamed `interface` line. */
  lemma StepName(ts: seq<Token>, i: nat, s: ParserState, n: string)
    requires i < |ts| && NameTracked(ts, i, s, n) && !ts[i].OpenUnnamed?
    ensures NameTracked(ts, i + 1, Step(s, ts[i]), n)
  {
    if ts[i] == Open(n) {
      StepDeclares(ts, i, s, n);
    } else if n !in s.entries {
      StepUndeclared(ts, i, s, n);
    } else if s.cursor != Some(n) || ClosesBlock(ts[i]) {
      StepLeaves(ts, i, s, n);
    } else {
      StepAbsorbs(ts, i, s, n);
    }
  }

  /** The pass over tokens without unnamed `interface` lines records every name as the reference does. */
  lemma {:induction false} RunName(ts: seq<Token>, i: nat, n: string)
    requires i <= |ts| && FirstUnnamed(ts, i) == i
    ensures NameTracked(ts, i, Run(ts, i), n)
  {
    if i > 0 {
      RunName(ts, i - 1, n);
      StepName(ts, i - 1, Run(ts, i - 1), n);
    }
  }

  /** The pass lists the names in the order of their first declaration. */
  lemma {:induction false} RunNames(ts: seq<Token>, i: nat)
    requires i <= |ts| && FirstUnnamed(ts, i) == i
    ensures Run(ts, i).names == Dedup(DeclaredNames(ts, i))
  {
    if i > 0 {
      RunNames(ts, i - 1);
      var t := ts[i - 1];
      if t.Open? {
        RunName(ts, i - 1, t.name);
        LastDeclarationFound(ts, i - 1, t.name);
        DedupSnoc(DeclaredNames(ts, i - 1), t.name);
      } else {
        assert DeclaredNames(ts, i) == DeclaredNames(ts, i - 1);
      }
    }
  }

  /** The pass ends with the reference entries. */
  lemma RunEntries(ts: seq<Token>)
    requires FirstUnnamed(ts, |ts|) == |ts|
    ensures Run(ts, |ts|).entries == ParsedTable(ts).entries
  {
    var entries := Run(ts, |ts|).entries;
    forall n
      ensures n in entries <==> n in ParsedTable(ts).entries
      ensures n in entries ==> entries[n] == ParsedTable(ts).entries[n]
    {
      RunName(ts, |ts|, n);
      LastDeclarationFound(ts, |ts|, n);
    }
  }

  /** When no `interface` line is unnamed, the pass yields the reference table. */
  lemma RunTable(ts: seq<Token>)
    requires FirstUnnamed(ts, |ts|) == |ts|
    ensures InterfaceTable(Run(ts, |ts|).names, Run(ts, |ts|).entries) == ParsedTable(ts)
  {
    RunNames(ts, |ts|);
    RunEntries(ts);
  }

  /** One more named token extends the pass by one step. */
  lemma Advance(ts: seq<Token>, i: nat)
    requires i < |ts| && FirstUnnamed(ts, i) == i && !ts[i].OpenUnnamed?
    ensures FirstUnnamed(ts, i + 1) == i + 1
    ensures Run(ts, i + 1) == Step(Run(ts, i), ts[i])
  {
  }

  /** An unnamed `interface` line after named ones is the first unnamed line of the whole sequence. */
  lemma UnnamedAt(ts: seq<Token>, i: nat)
    requires i < |ts| && FirstUnnamed(ts, i) == i && ts[i].OpenUnnamed?
    ensures FirstUnnamed(ts, |ts|) == i
  {
    assert FirstUnnamed(ts, i + 1) == i;
    FirstUnnamedStays(ts, i + 1, |ts|);
  }

  /** An unnamed `interface` line reached with every earlier line named decides the outcome. */
  lemma UnnamedOutcome(config: string, i: nat)
    requires i < |Tokens(config)| && FirstUnnamed(Tokens(config), i) == i && Tokens(config)[i].OpenUnnamed?
    ensures ParseOutcome(config) == Failure(MissingInterfaceName(i))
  {
    UnnamedAt(Tokens(config), i);
  }

  /** A pass over a configuration without unnamed `interface` lines yields the reference outcome. */
  lemma NamedOutcome(config: string)
    requires FirstUnnamed(Tokens(config), |Tokens(config)|) == |Tokens(config)|
    ensures var s := Run(Tokens(config), |Tokens(config)|);
      ParseOutcome(config) == Success(InterfaceTable(s.names, s.entries))
  {
    RunTable(Tokens(config));
  }

  // ---------------------------------------------------------------------------
  // The parser

  /**
   * The body of the parser's loop for line `i` of `raw`: strips the line and
   * updates the table and the cursor. `failed` reports an `interface` line
   * without a name, where the source's indexing of the split line raises.
   */
  method ParseLine(raw: seq<string>, i: nat, names: seq<string>, entries: map<string, Interface>, cursor: Option<string>)
    returns (failed: bool, names': seq<string>, entries': map<string, Interface>, cursor': Option<string>)
    requires i < |raw|
    requires cursor.Some? ==> cursor.value in entries && cursor.value != []
    ensures failed <==> TokensOf(raw)[i].OpenUnnamed?
    ensures !failed ==> ParserState(names', entries', cursor') == Step(ParserState(names, entries, cursor), TokensOf(raw)[i])
    ensures cursor'.Some? ==> cursor'.value in entries' && cursor'.value != []
  {
    TokenCases(raw, i);
    failed, names', entries', cursor' := false, names, entries, cursor;
    var line := Strip(raw[i]);
    if IsInterfaceLine(line) {
      var words := Words(line);
      if |words| < 2 {
        failed := true;
        return;
      }
      var name := words[1];
      WordsNonEmpty(line);
      if name !in entries' {
        names' := names' + [name];
      }
      entries' := entries'[name := Interface([], None)];
      cursor' := Some(name);
    } else if cursor'.Some? && cursor'.value != [] && line != [] && !StartsWith(line, "!") {
      var details := entries'[cursor'.value];
      if IsDescriptionLine(line) {
        details := details.(description := Some(Strip(line[11..])));
      } else {
        details := details.(config := details.config + [line]);
      }
      entries' := entries'[cursor'.value := details];
    } else if StartsWith(line, "!") {
      cursor' := None;
    } else if cursor'.Some? {
      // A blank line inside a block leaves the table as it is.
      assert entries'[cursor'.value := Absorb(entries'[cursor'.value], Blank)] == entries';
    }
  }

  /**
   * Splits the running configuration into interfaces. Fails, as the indexing of
   * the split line does, at the first `interface` line without a name.
   */
  method ParseInterfaces(config: string) returns (r: Result<InterfaceTable, ParseError>)
    ensures r == ParseOutcome(config)
  {
    var raw := SplitLines(config);
    ghost var ts := Tokens(config);
    var names: seq<string> := [];
    var entries: map<string, Interface> := map[];
    var cursor: Option<string> := None;
    var i := 0;
    while i < |raw|
      invariant 0 <= i <= |raw| == |ts|
      invariant FirstUnnamed(ts, i) == i
      invariant ParserState(names, entries, cursor) == Run(ts, i)
      invariant cursor.Some? ==> cursor.value in entries && cursor.value != []
    {
      var failed;
      failed, names, entries, cursor := ParseLine(raw, i, names, entries, cursor);
      if failed {
        UnnamedOutcome(config, i);
        return Failure(MissingInterfaceName(i));
      }
      Advance(ts, i);
      i := i + 1;
    }
    NamedOutcome(config);
    r := Success(InterfaceTable(names, entries));
  }

  // ---------------------------------------------------------------------------
  // Properties of the parsed table

  /** The outcome of a successful parse maps exactly the interfaces it lists, each listed once. */
  lemma ParsedOutcomeShape(config: string)
    requires ParseOutcome(config).Success?
    ensures var table := ParseOutcome(config).value;
      && (forall n :: n in table.names <==> n in table.entries)
      && (forall i, j :: 0 <= i < j < |table.names| ==> table.names[i] != table.names[j])
  {
    ParsedTableShape(Tokens(config));
  }

  /**
   * A configuration line as the parser stores it: non-empty, stripped, free of
   * line boundaries, and neither an `interface`, a `!` nor a `description` line.
   */
  predicate StoredLine(l: string) {
    && l != [] && Strip(l) == l
    && (forall c :: c in l ==> !IsLineBreak(c))
    && !IsInterfaceLine(l) && !StartsWith(l, "!") && !IsDescriptionLine(l)
  }

  /** The line of a command token is a stored line. */
  lemma CommandLine(r: string, l: string)
    requires forall c :: c in r ==> !IsLineBreak(c)
    requires Classify(Strip(r)) == Command(l)
    ensures StoredLine(l)
  {
    StripIdempotent(r);
    StripFacts(r);
  }

  /** A configuration line of the block opened at `k` comes from a command token inside that block. */
  lemma ConfigLineSource(ts: seq<Token>, k: nat, l: string) returns (m: nat)
    requires k < |ts| && l in EntryAt(ts, k, |ts|).config
    ensures k < m < BlockEnd(ts, k + 1, |ts|) && ts[m] == Command(l)
  {
    ConfigLinesMembers(ts, k + 1, BlockEnd(ts, k + 1, |ts|), l);
    m :| k + 1 <= m < BlockEnd(ts, k + 1, |ts|) && ts[m] == Command(l);
  }

  /** Every configuration line of a parsed entry is a stored line of the configuration. */
  lemma ParsedConfigLines(config: string, n: string)
    requires ParseOutcome(config).Success?
    requires n in ParseOutcome(config).value.entries
    ensures forall l :: l in ParseOutcome(config).value.entries[n].config ==> StoredLine(l)
  {
    var ts := Tokens(config);
    var raw := SplitLines(config);
    SplitLinesNoBreaks(config);
    DeclarationsFound(ts, |ts|);
    var k := LastDeclaration(ts, |ts|, n);
    assert ParseOutcome(config).value.entries[n] == EntryAt(ts, k, |ts|);
    forall l | l in EntryAt(ts, k, |ts|).config
      ensures StoredLine(l)
    {
      var m := ConfigLineSource(ts, k, l);
      TokenAt(raw, m);
      CommandLine(raw[m], l);
    }
  }
}
