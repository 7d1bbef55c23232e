/**
 * The compliance check of one device. Its running configuration is parsed
 * into interfaces; every interface whose name starts with `GigabitEthernet`
 * (in any case) is matched to a template by its description and, if one
 * matches, its configuration lines, joined with newlines, are checked against
 * that template. Interfaces without a matching template are skipped; the
 * device is reported compliant exactly when no interface is non-compliant
 * and none is skipped.
 */
module Host {
  import opened Wrappers
  import opened Text
  import opened RunningConfig
  import opened Matcher
  import opened Evaluator

  /** A non-compliant interface: its name, the verdict and its description. */
  datatype NonCompliance = NonCompliance(name: string, verdict: Verdict, description: Option<string>)

  /** The device's result: all compliant, or the non-compliant and the skipped interfaces in table order. */
  datatype HostReport = AllCompliant | Issues(nonCompliant: seq<NonCompliance>, skipped: seq<string>)

  /** What happens to one interface. */
  datatype InterfaceOutcome = NotChecked | Skipped | Checked(verdict: Verdict)

  /** `re.match(r'^GigabitEthernet', name, re.IGNORECASE)`, for ASCII names. */
  predicate IsGigabitEthernet(name: string) {
    StartsWith(Lower(name), "gigabitethernet")
  }

  /** The outcome for interface `name` with entry `e`. */
  function OutcomeOf(name: string, e: Interface, tt: TemplateTable): InterfaceOutcome
    requires Keyed(tt)
  {
    if !IsGigabitEthernet(name) then NotChecked
    else match FindMatchingTemplate(e.description, tt)
      case None => Skipped
      case Some(t) => Checked(VerdictFor(JoinWith(e.config, '\n'), t.required, t.additionalAllowed))
  }

  /** Whether an interface is reported as non-compliant. */
  predicate Fails(o: InterfaceOutcome) {
    o.Checked? && o.verdict.status == NonCompliant
  }

  /** The non-compliant interfaces among `names`, in order. */
  function NonCompliantOf(names: seq<string>, entries: map<string, Interface>, tt: TemplateTable): seq<NonCompliance>
    requires Keyed(tt) && forall n :: n in names ==> n in entries
  {
    if names == [] then []
    else
      var n := names[|names| - 1];
      var o := OutcomeOf(n, entries[n], tt);
      NonCompliantOf(names[..|names| - 1], entries, tt) +
        (if Fails(o) then [NonCompliance(n, o.verdict, entries[n].description)] else [])
  }

  /** The skipped interfaces among `names`, in order. */
  function SkippedOf(names: seq<string>, entries: map<string, Interface>, tt: TemplateTable): seq<string>
    requires Keyed(tt) && forall n :: n in names ==> n in entries
  {
    if names == [] then []
    else
      var n := names[|names| - 1];
      SkippedOf(names[..|names| - 1], entries, tt) + (if OutcomeOf(n, entries[n], tt) == Skipped then [n] else [])
  }

  /** The report on the interfaces `names` of a table. */
  function ReportOf(names: seq<string>, entries: map<string, Interface>, tt: TemplateTable): HostReport
    requires Keyed(tt) && forall n :: n in names ==> n in entries
  {
    var nonCompliant := NonCompliantOf(names, entries, tt);
    var skipped := SkippedOf(names, entries, tt);
    if nonCompliant == [] && skipped == [] then AllCompliant else Issues(nonCompliant, skipped)
  }

  /** The result for a device with running configuration `config`; a parse failure fails the device. */
  function HostOutcome(config: string, tt: TemplateTable): Result<HostReport, ParseError>
    requires Keyed(tt)
  {
    match ParseOutcome(config)
    case Failure(e) => Failure(e)
    case Success(table) =>
      ParsedOutcomeShape(config);
      Success(ReportOf(table.names, table.entries, tt))
  }

  /**
   * Checks one device: parses its running configuration and checks every
   * GigabitEthernet interface against the template its description selects.
   */
  method CheckSwitchCompliance(config: string, tt: TemplateTable) returns (r: Result<HostReport, ParseError>)
    requires Keyed(tt)
    ensures r == HostOutcome(config, tt)
  {
    var parsed := ParseInterfaces(config);
    if parsed.Failure? {
      return Failure(parsed.error);
    }
    var table := parsed.value;
    ParsedOutcomeShape(config);
    var nonCompliant: seq<NonCompliance> := [];
    var skipped: seq<string> := [];
    for i := 0 to |table.names|
      invariant nonCompliant == NonCompliantOf(table.names[..i], table.entries, tt)
      invariant skipped == SkippedOf(table.names[..i], table.entries, tt)
    {
      assert table.names[..i + 1][..i] == table.names[..i];
      var name := table.names[i];
      var details := table.entries[name];
      if IsGigabitEthernet(name) {
        var template := FindMatchingTemplate(details.description, tt);
        if template.Some? {
          var configText := JoinWith(details.config, '\n');
          var verdict := CheckInterfaceCompliance(configText, template.value.required, template.value.additionalAllowed);
          if verdict.status != Compliant {
            nonCompliant := nonCompliant + [NonCompliance(name, verdict, details.description)];
          }
        } else {
          skipped := skipped + [name];
        }
      }
    }
    assert table.names[..|table.names|] == table.names;
    if nonCompliant == [] && skipped == [] {
      r := Success(AllCompliant);
    } else {
      r := Success(Issues(nonCompliant, skipped));
    }
  }

  // ---------------------------------------------------------------------------
  // Properties of the report

  /** An interface is reported non-compliant, with its verdict and description, exactly when its check fails. */
  lemma {:induction false} NonCompliantMember(names: seq<string>, entries: map<string, Interface>, tt: TemplateTable, x: NonCompliance)
    requires Keyed(tt) && forall n :: n in names ==> n in entries
    ensures x in NonCompliantOf(names, entries, tt) <==>
      && x.name in names
      && Fails(OutcomeOf(x.name, entries[x.name], tt))
      && x.verdict == OutcomeOf(x.name, entries[x.name], tt).verdict
      && x.description == entries[x.name].description
  {
    if names != [] {
      var init := names[..|names| - 1];
      NonCompliantMember(init, entries, tt, x);
      assert names == init + [names[|names| - 1]];
    }
  }

  /** An interface is skipped exactly when it is a GigabitEthernet interface without a matching template. */
  lemma {:induction false} SkippedMember(names: seq<string>, entries: map<string, Interface>, tt: TemplateTable, n: string)
    requires Keyed(tt) && forall n :: n in names ==> n in entries
    ensures n in SkippedOf(names, entries, tt) <==>
      n in names && IsGigabitEthernet(n) && FindMatchingTemplate(entries[n].description, tt).None?
  {
    if names != [] {
      var init := names[..|names| - 1];
      SkippedMember(init, entries, tt, n);
      assert names == init + [names[|names| - 1]];
    }
  }

  /**
   * A device is all compliant exactly when every GigabitEthernet interface has
   * a matching template and passes its check; other interfaces never matter.
   */
  lemma AllCompliantIff(names: seq<string>, entries: map<string, Interface>, tt: TemplateTable)
    requires Keyed(tt) && forall n :: n in names ==> n in entries
    ensures ReportOf(names, entries, tt) == AllCompliant <==>
      forall n :: n in names ==> OutcomeOf(n, entries[n], tt) != Skipped && !Fails(OutcomeOf(n, entries[n], tt))
  {
    var nonCompliant := NonCompliantOf(names, entries, tt);
    var skipped := SkippedOf(names, entries, tt);
    if nonCompliant != [] {
      NonCompliantMember(names, entries, tt, nonCompliant[0]);
    }
    if skipped != [] {
      SkippedMember(names, entries, tt, skipped[0]);
    }
    forall n | n in names
      ensures !Fails(OutcomeOf(n, entries[n], tt)) || nonCompliant != []
      ensures OutcomeOf(n, entries[n], tt) != Skipped || skipped != []
    {
      if Fails(OutcomeOf(n, entries[n], tt)) {
        var o := OutcomeOf(n, entries[n], tt);
        NonCompliantMember(names, entries, tt, NonCompliance(n, o.verdict, entries[n].description));
      }
      SkippedMember(names, entries, tt, n);
    }
  }

  // ---------------------------------------------------------------------------
  // The check sees exactly the parsed configuration lines

  /** A stored line is already stripped and is one the compliance check considers. */
  lemma StoredConsidered(l: string)
    requires StoredLine(l)
    ensures Strip(l) == l && Considered(l)
  {
    if StartsWith(l, "interface") {
      StartsWithLower(l, "interface");
    }
  }

  /** The compliance check considers every one of a list of stored lines, in order. */
  lemma {:induction false} StoredLinesConsidered(ls: seq<string>, k: nat)
    requires k <= |ls|
    requires forall i :: 0 <= i < |ls| ==> StoredLine(ls[i])
    ensures ConsideredLines(ls[..k]) == ls[..k]
  {
    if k > 0 {
      StoredLinesConsidered(ls, k - 1);
      StoredConsidered(ls[k - 1]);
      assert ls[..k][..k - 1] == ls[..k - 1];
      assert ls[..k] == ls[..k - 1] + [ls[k - 1]];
    }
  }

  /** The compliance check considers a whole list of stored lines, in order. */
  lemma AllStoredConsidered(ls: seq<string>)
    requires forall i :: 0 <= i < |ls| ==> StoredLine(ls[i])
    ensures ConsideredLines(ls) == ls
  {
    StoredLinesConsidered(ls, |ls|);
    assert ls[..|ls|] == ls;
  }

  /** A stored line holds no newline. */
  lemma NoNewlines(ls: seq<string>)
    requires forall i :: 0 <= i < |ls| ==> StoredLine(ls[i])
    ensures forall i :: 0 <= i < |ls| ==> '\n' !in ls[i]
  {
    forall i | 0 <= i < |ls|
      ensures '\n' !in ls[i]
    {
      assert StoredLine(ls[i]);
    }
  }

  /** The empty configuration text holds no line the check considers. */
  lemma ConsideredOfEmpty()
    ensures ConsideredOf([]) == []
  {
    assert SplitOn([], '\n') == [[]];
    assert Strip([]) == [];
  }

  /**
   * Joining stored lines with newlines and splitting the text again, as the
   * device check and the compliance check do, gives back exactly those lines.
   */
  lemma ConsideredOfJoin(ls: seq<string>)
    requires forall i :: 0 <= i < |ls| ==> StoredLine(ls[i])
    ensures ConsideredOf(JoinWith(ls, '\n')) == ls
  {
    if ls == [] {
      ConsideredOfEmpty();
    } else {
      NoNewlines(ls);
      SplitJoin(ls, '\n');
      AllStoredConsidered(ls);
    }
  }

  /**
   * The verdict on a parsed interface judges exactly its configuration lines:
   * a required command is missing when no line equals it, and a line is
   * unexpected when it is neither required nor starts with an allowed command.
   */
  lemma CheckedVerdict(config: string, tt: TemplateTable, n: string)
    requires Keyed(tt) && ParseOutcome(config).Success?
    requires n in ParseOutcome(config).value.entries
    requires OutcomeOf(n, ParseOutcome(config).value.entries[n], tt).Checked?
    ensures var e := ParseOutcome(config).value.entries[n];
      var t := FindMatchingTemplate(e.description, tt).value;
      OutcomeOf(n, e, tt).verdict == VerdictOfLines(e.config, t.required, t.additionalAllowed)
  {
    var e := ParseOutcome(config).value.entries[n];
    ParsedConfigLines(config, n);
    ConsideredOfJoin(e.config);
  }
}
