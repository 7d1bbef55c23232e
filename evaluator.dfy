/**
 * The compliance check of one interface against one template. The
 * interface's configuration text is split at newlines and every line is
 * stripped; empty lines and lines starting with `interface` (case-sensitive
 * here) are ignored. A line equal to a required command satisfies it; any
 * other line is unexpected unless it starts with an allowed command, the
 * allowed commands being the required ones followed by the additional ones.
 * The verdict is compliant exactly when no required command is missing and
 * no line is unexpected.
 */
module Evaluator {
  import opened Text

  datatype Status = Compliant | NonCompliant

  /** The outcome of one check: the missing commands form a set, the unexpected lines keep their order and repeats. */
  datatype Verdict = Verdict(status: Status, missing: set<string>, unexpected: seq<string>)

  /** Whether the check looks at a stripped line at all. */
  predicate Considered(line: string) {
    line != [] && !StartsWith(line, "interface")
  }

  /** The stripped lines of `lines` the check looks at, in order. */
  function ConsideredLines(lines: seq<string>): seq<string> {
    if lines == [] then []
    else
      var line := Strip(lines[|lines| - 1]);
      ConsideredLines(lines[..|lines| - 1]) + (if Considered(line) then [line] else [])
  }

  /** The lines of a configuration text the check looks at. */
  function ConsideredOf(config: string): seq<string> {
    ConsideredLines(SplitOn(config, '\n'))
  }

  /** `any(line.startswith(a) for a in allowed)`. */
  function HasAllowedPrefix(line: string, allowed: seq<string>): (b: bool)
    ensures b <==> exists a :: a in allowed && StartsWith(line, a)
  {
    if allowed == [] then false
    else StartsWith(line, allowed[0]) || HasAllowedPrefix(line, allowed[1..])
  }

  /** Whether the check reports `line` as unexpected. */
  predicate IsUnexpected(line: string, required: seq<string>, allowed: seq<string>) {
    line !in required && !HasAllowedPrefix(line, allowed)
  }

  /** The lines among `cs` reported as unexpected, in order. */
  function UnexpectedOf(cs: seq<string>, required: seq<string>, allowed: seq<string>): seq<string> {
    if cs == [] then []
    else
      var line := cs[|cs| - 1];
      UnexpectedOf(cs[..|cs| - 1], required, allowed) + (if IsUnexpected(line, required, allowed) then [line] else [])
  }

  /** The required commands that no line among `cs` equals. */
  function MissingOf(cs: seq<string>, required: seq<string>): set<string> {
    set r | r in required && r !in cs
  }

  /** The verdict on considered lines `cs`. */
  function VerdictOfLines(cs: seq<string>, required: seq<string>, additionalAllowed: seq<string>): Verdict {
    var missing := MissingOf(cs, required);
    var unexpected := UnexpectedOf(cs, required, required + additionalAllowed);
    Verdict(if missing == {} && unexpected == [] then Compliant else NonCompliant, missing, unexpected)
  }

  /** The verdict on a configuration text. */
  function VerdictFor(config: string, required: seq<string>, additionalAllowed: seq<string>): Verdict {
    VerdictOfLines(ConsideredOf(config), required, additionalAllowed)
  }

  /**
   * Checks `config` against a template: collects the required commands found
   * and the unexpected lines in one pass, then the missing commands.
   */
  method CheckInterfaceCompliance(config: string, required: seq<string>, additionalAllowed: seq<string>)
    returns (v: Verdict)
    ensures v == VerdictFor(config, required, additionalAllowed)
  {
    var allowed := required + additionalAllowed;
    var configLines := SplitOn(config, '\n');
    var found: set<string> := {};
    var unexpected: seq<string> := [];
    ghost var cs: seq<string> := [];
    for i := 0 to |configLines|
      invariant cs == ConsideredLines(configLines[..i])
      invariant forall l :: l in found <==> l in cs && l in required
      invariant unexpected == UnexpectedOf(cs, required, allowed)
    {
      ConsideredSnoc(configLines, i);
      var line := Strip(configLines[i]);
      if line == [] || StartsWith(line, "interface") {
        continue;
      }
      UnexpectedSnoc(cs, line, required, allowed);
      cs := cs + [line];
      if line in required {
        found := found + {line};
      } else if !HasAllowedPrefix(line, allowed) {
        unexpected := unexpected + [line];
      }
    }
    assert configLines[..|configLines|] == configLines;
    var missing := (set r | r in required) - found;
    assert missing == MissingOf(cs, required);
    v := Verdict(if missing == {} && unexpected == [] then Compliant else NonCompliant, missing, unexpected);
  }

  /** Reading one more line adds it, stripped, when the check considers it. */
  lemma ConsideredSnoc(lines: seq<string>, i: nat)
    requires i < |lines|
    ensures var line := Strip(lines[i]);
      ConsideredLines(lines[..i + 1]) == ConsideredLines(lines[..i]) + (if Considered(line) then [line] else [])
  {
    assert lines[..i + 1][..i] == lines[..i];
  }

  /** Appending a line extends the unexpected list only when that line is unexpected. */
  lemma UnexpectedSnoc(cs: seq<string>, line: string, required: seq<string>, allowed: seq<string>)
    ensures UnexpectedOf(cs + [line], required, allowed) ==
      UnexpectedOf(cs, required, allowed) + (if IsUnexpected(line, required, allowed) then [line] else [])
  {
    assert (cs + [line])[..|cs|] == cs;
  }

  // ---------------------------------------------------------------------------
  // Properties of the verdict

  /** A line is reported exactly when it is considered, not required, and starts with no allowed command. */
  lemma {:induction false} UnexpectedMember(cs: seq<string>, required: seq<string>, allowed: seq<string>, l: string)
    ensures l in UnexpectedOf(cs, required, allowed) <==>
      l in cs && l !in required && forall a :: a in allowed ==> !StartsWith(l, a)
  {
    if cs != [] {
      var init := cs[..|cs| - 1];
      UnexpectedMember(init, required, allowed, l);
      assert cs == init + [cs[|cs| - 1]];
    }
  }

  /** Nothing is missing exactly when every required command appears as a line. */
  lemma NothingMissingIff(cs: seq<string>, required: seq<string>)
    ensures MissingOf(cs, required) == {} <==> forall r :: r in required ==> r in cs
  {
    if exists r :: r in required && r !in cs {
      var r :| r in required && r !in cs;
      assert r in MissingOf(cs, required);
    }
  }

  /** Nothing is unexpected exactly when every line is required or starts with an allowed command. */
  lemma NothingUnexpectedIff(cs: seq<string>, required: seq<string>, allowed: seq<string>)
    ensures UnexpectedOf(cs, required, allowed) == [] <==>
      forall l :: l in cs ==> l in required || exists a :: a in allowed && StartsWith(l, a)
  {
    var u := UnexpectedOf(cs, required, allowed);
    if u != [] {
      UnexpectedMember(cs, required, allowed, u[0]);
    }
    if exists l :: l in cs && l !in required && !(exists a :: a in allowed && StartsWith(l, a)) {
      var l :| l in cs && l !in required && !(exists a :: a in allowed && StartsWith(l, a));
      UnexpectedMember(cs, required, allowed, l);
    }
  }

  /** The verdict is compliant exactly when every required command appears as a line and every line is required or allowed. */
  lemma CompliantIff(cs: seq<string>, required: seq<string>, additionalAllowed: seq<string>)
    ensures VerdictOfLines(cs, required, additionalAllowed).status == Compliant <==>
      && (forall r :: r in required ==> r in cs)
      && (forall l :: l in cs ==> l in required || exists a :: a in required + additionalAllowed && StartsWith(l, a))
  {
    NothingMissingIff(cs, required);
    NothingUnexpectedIff(cs, required, required + additionalAllowed);
  }

  /**
   * A line that extends a required command is never unexpected, yet it does
   * not satisfy that command: the command stays missing unless it also
   * appears on a line of its own.
   */
  lemma ExtendedCommand(cs: seq<string>, required: seq<string>, additionalAllowed: seq<string>, r: string, l: string)
    requires r in required && l in cs && StartsWith(l, r) && r !in cs
    ensures l !in VerdictOfLines(cs, required, additionalAllowed).unexpected
    ensures r in VerdictOfLines(cs, required, additionalAllowed).missing
    ensures VerdictOfLines(cs, required, additionalAllowed).status == NonCompliant
  {
    UnexpectedMember(cs, required, required + additionalAllowed, l);
  }

  /** An empty allowed command allows every line, so nothing is ever unexpected. */
  lemma EmptyAllowedAllowsAll(cs: seq<string>, required: seq<string>, additionalAllowed: seq<string>)
    requires "" in additionalAllowed
    ensures VerdictOfLines(cs, required, additionalAllowed).unexpected == []
  {
    var allowed := required + additionalAllowed;
    if UnexpectedOf(cs, required, allowed) != [] {
      var l := UnexpectedOf(cs, required, allowed)[0];
      UnexpectedMember(cs, required, allowed, l);
      assert StartsWith(l, "");
      assert false;
    }
  }
}
