/**
 * Reading one interface template: every line of a template file is stripped
 * and then classified. A line starting with `#` is a comment, a line starting
 * with `+` names an additionally allowed command (the marker and the
 * whitespace after it removed), an empty line is dropped, and every other line
 * is a required command. There is no removal kind: a line starting with `-`
 * is required like any other.
 */
module Templates {
  import opened Text

  /** The two command lists a template file yields, each in file order. */
  datatype Template = Template(required: seq<string>, additionalAllowed: seq<string>)

  /** What one template line contributes. */
  datatype LineKind = Comment | Blank | Allowed(text: string) | Required(text: string)

  /** The classification of one line of a template file. */
  function Classify(line: string): LineKind {
    var s := Strip(line);
    if StartsWith(s, "#") then Comment
    else if StartsWith(s, "+") then Allowed(Strip(s[1..]))
    else if s != [] then Required(s)
    else Blank
  }

  /** The required command a line contributes, if any. */
  function RequiredPart(line: string): seq<string> {
    match Classify(line) case Required(t) => [t] case _ => []
  }

  /** The allowed command a line contributes, if any. */
  function AllowedPart(line: string): seq<string> {
    match Classify(line) case Allowed(t) => [t] case _ => []
  }

  /** The required commands of `lines`, in file order. */
  function RequiredOf(lines: seq<string>): seq<string> {
    if lines == [] then [] else RequiredOf(lines[..|lines| - 1]) + RequiredPart(lines[|lines| - 1])
  }

  /** The additionally allowed commands of `lines`, in file order. */
  function AllowedOf(lines: seq<string>): seq<string> {
    if lines == [] then [] else AllowedOf(lines[..|lines| - 1]) + AllowedPart(lines[|lines| - 1])
  }

  /**
   * The classification loop over the lines of one template file: each line is
   * stripped and appended to the required or to the allowed list, or dropped.
   */
  method ParseTemplateLines(lines: seq<string>) returns (t: Template)
    ensures t.required == RequiredOf(lines)
    ensures t.additionalAllowed == AllowedOf(lines)
  {
    var required: seq<string> := [];
    var additionalAllowed: seq<string> := [];
    for i := 0 to |lines|
      invariant required == RequiredOf(lines[..i])
      invariant additionalAllowed == AllowedOf(lines[..i])
    {
      assert lines[..i + 1][..i] == lines[..i];
      var line := Strip(lines[i]);
      if StartsWith(line, "#") {
        continue;
      } else if StartsWith(line, "+") {
        additionalAllowed := additionalAllowed + [Strip(line[1..])];
      } else if line != [] {
        required := required + [line];
      }
    }
    assert lines[..|lines|] == lines;
    t := Template(required, additionalAllowed);
  }

  /** Classification is line by line: the required list of a concatenation is the concatenated lists. */
  lemma {:induction false} RequiredConcat(a: seq<string>, b: seq<string>)
    ensures RequiredOf(a + b) == RequiredOf(a) + RequiredOf(b)
  {
    if b == [] {
      assert a + b == a;
    } else {
      var b', last := b[..|b| - 1], b[|b| - 1];
      assert (a + b)[..|a + b| - 1] == a + b';
      RequiredConcat(a, b');
      calc {
        RequiredOf(a + b);
        RequiredOf(a + b') + RequiredPart(last);
        RequiredOf(a) + RequiredOf(b') + RequiredPart(last);
        RequiredOf(a) + (RequiredOf(b') + RequiredPart(last));
      }
    }
  }

  /** Classification is line by line: the allowed list of a concatenation is the concatenated lists. */
  lemma {:induction false} AllowedConcat(a: seq<string>, b: seq<string>)
    ensures AllowedOf(a + b) == AllowedOf(a) + AllowedOf(b)
  {
    if b == [] {
      assert a + b == a;
    } else {
      var b', last := b[..|b| - 1], b[|b| - 1];
      assert (a + b)[..|a + b| - 1] == a + b';
      AllowedConcat(a, b');
      calc {
        AllowedOf(a + b);
        AllowedOf(a + b') + AllowedPart(last);
        AllowedOf(a) + AllowedOf(b') + AllowedPart(last);
        AllowedOf(a) + (AllowedOf(b') + AllowedPart(last));
      }
    }
  }

  /** A command is required exactly when some line of the file classifies as that required command. */
  lemma {:induction false} RequiredFromLine(lines: seq<string>, x: string)
    ensures x in RequiredOf(lines) <==> exists i :: 0 <= i < |lines| && Classify(lines[i]) == Required(x)
  {
    if lines != [] {
      var init := lines[..|lines| - 1];
      RequiredFromLine(init, x);
      if x in RequiredOf(lines) && x !in RequiredOf(init) {
        assert Classify(lines[|lines| - 1]) == Required(x);
      }
      if exists i :: 0 <= i < |lines| && Classify(lines[i]) == Required(x) {
        var i :| 0 <= i < |lines| && Classify(lines[i]) == Required(x);
        if i < |lines| - 1 {
          assert init[i] == lines[i];
        }
      }
    }
  }

  /** A command is additionally allowed exactly when some line of the file classifies as that allowed command. */
  lemma {:induction false} AllowedFromLine(lines: seq<string>, x: string)
    ensures x in AllowedOf(lines) <==> exists i :: 0 <= i < |lines| && Classify(lines[i]) == Allowed(x)
  {
    if lines != [] {
      var init := lines[..|lines| - 1];
      AllowedFromLine(init, x);
      if x in AllowedOf(lines) && x !in AllowedOf(init) {
        assert Classify(lines[|lines| - 1]) == Allowed(x);
      }
      if exists i :: 0 <= i < |lines| && Classify(lines[i]) == Allowed(x) {
        var i :| 0 <= i < |lines| && Classify(lines[i]) == Allowed(x);
        if i < |lines| - 1 {
          assert init[i] == lines[i];
        }
      }
    }
  }

  /**
   * Every required command is non-empty, already stripped, and starts with
   * neither `#` nor `+`; a line starting with `-` is one of them.
   */
  lemma {:induction false} RequiredShape(lines: seq<string>)
    ensures forall x :: x in RequiredOf(lines) ==>
      x != [] && Strip(x) == x && !StartsWith(x, "#") && !StartsWith(x, "+")
    ensures forall i :: 0 <= i < |lines| && StartsWith(Strip(lines[i]), "-") ==>
      Strip(lines[i]) in RequiredOf(lines)
  {
    forall x | x in RequiredOf(lines)
      ensures x != [] && Strip(x) == x && !StartsWith(x, "#") && !StartsWith(x, "+")
    {
      RequiredFromLine(lines, x);
      var i :| 0 <= i < |lines| && Classify(lines[i]) == Required(x);
      StripIdempotent(lines[i]);
    }
    forall i | 0 <= i < |lines| && StartsWith(Strip(lines[i]), "-")
      ensures Strip(lines[i]) in RequiredOf(lines)
    {
      assert Classify(lines[i]) == Required(Strip(lines[i]));
      RequiredFromLine(lines, Strip(lines[i]));
    }
  }

  /** Every additionally allowed command is stripped: the marker and the whitespace around it are gone. */
  lemma {:induction false} AllowedShape(lines: seq<string>)
    ensures forall x :: x in AllowedOf(lines) ==> Strip(x) == x
  {
    forall x | x in AllowedOf(lines)
      ensures Strip(x) == x
    {
      AllowedFromLine(lines, x);
      var i :| 0 <= i < |lines| && Classify(lines[i]) == Allowed(x);
      StripIdempotent(Strip(lines[i])[1..]);
    }
  }

  /** A `+` line with nothing after the marker yields the empty allowed command. */
  lemma BareAllowedMarker(line: string)
    requires Strip(line) == "+"
    ensures Classify(line) == Allowed("")
  {
    assert StartsWith("+", "+");
    assert Strip("") == "";
  }
}
