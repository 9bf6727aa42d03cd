/** The text operations behind `smf_printer`, the code generator's output
    buffer: `$name$` template substitution and per-line indentation. */
module PrinterText {
  import opened Wrappers

  /** `std::string::find(c, from)`: the first position at or after `from`
      holding `c` (that it is the first is `FindFirst`). */
  function Find(s: string, c: char, from: nat): (r: Option<nat>)
    ensures r.Some? ==> from <= r.value < |s| && s[r.value] == c
    decreases |s| - from
  {
    if from >= |s| then None
    else if s[from] == c then Some(from)
    else Find(s, c, from + 1)
  }

  /** Nothing before the position found holds `c`; when nothing is found,
      nothing from `from` on does. */
  lemma {:induction false} FindFirst(s: string, c: char, from: nat)
    ensures Find(s, c, from).Some? ==> forall k :: from <= k < Find(s, c, from).value ==> s[k] != c
    ensures Find(s, c, from).None? ==> forall k :: from <= k < |s| ==> s[k] != c
    decreases |s| - from
  {
    if from < |s| && s[from] != c {
      FindFirst(s, c, from + 1);
    }
  }

  /** A search skips positions that do not hold `c`. */
  lemma {:induction false} FindSkip(s: string, c: char, from: nat, to: nat)
    requires from <= to <= |s|
    requires forall k :: from <= k < to ==> s[k] != c
    ensures Find(s, c, from) == Find(s, c, to)
    decreases (to as int) - (from as int)
  {
    if from < to {
      FindSkip(s, c, from + 1, to);
    }
  }

  // ---------------------------------------------------------------------
  // Template substitution.

  /** The placeholder the loop of `print(vars, template)` finds searching
      from `from`: the first escape `p`, the next escape `p2` after it, the
      name between them known to `vars`. `None` is a `break` (no escape, an
      unclosed placeholder or an unknown name). */
  function Placeholder(vars: map<string, string>, esc: char, s: string, from: nat): (r: Option<(nat, nat)>)
    ensures r.Some? ==> from <= r.value.0 < r.value.1 < |s|
    ensures r.Some? ==> s[r.value.0 + 1..r.value.1] in vars
  {
    match Find(s, esc, from)
    case None => None
    case Some(p) =>
      match Find(s, esc, p + 1)
      case None => None
      case Some(p2) => if s[p + 1..p2] in vars then Some((p, p2)) else None
  }

  /** One turn of the loop: the placeholder replaced by its value, and the
      position just past the value. The text before the placeholder is
      kept and what is left to search shrinks. */
  function SubstituteOnce(vars: map<string, string>, esc: char, s: string, from: nat): (r: Option<(string, nat)>)
    ensures r.None? <==> Placeholder(vars, esc, s, from).None?
    ensures r.Some? ==> from <= r.value.1 <= |r.value.0| && |r.value.0| - r.value.1 < |s| - from
  {
    match Placeholder(vars, esc, s, from)
    case None => None
    case Some((p, p2)) =>
      var v := vars[s[p + 1..p2]];
      Some((s[..p] + v + s[p2 + 1..], p + |v|))
  }

  /** The loop as written: every turn searches again from the start of the
      string, so substituted text is searched too. It need not stop; `fuel`
      bounds the turns, and `None` is a loop that has not stopped. */
  function SubstituteAsWritten(vars: map<string, string>, esc: char, s: string, fuel: nat): (r: Option<string>)
    ensures fuel > 0 && SubstituteOnce(vars, esc, s, 0).None? ==> r == Some(s)
    decreases fuel
  {
    if fuel == 0 then None
    else match SubstituteOnce(vars, esc, s, 0)
      case None => Some(s)
      case Some((s', _)) => SubstituteAsWritten(vars, esc, s', fuel - 1)
  }

  /** When the loop as written stops, no placeholder is left to find from
      the start of its result. */
  lemma {:induction false} AsWrittenStopsClean(vars: map<string, string>, esc: char, s: string, fuel: nat)
    ensures var r := SubstituteAsWritten(vars, esc, s, fuel);
      r.Some? ==> SubstituteOnce(vars, esc, r.value, 0).None?
    decreases fuel
  {
    if fuel > 0 && SubstituteOnce(vars, esc, s, 0).Some? {
      AsWrittenStopsClean(vars, esc, SubstituteOnce(vars, esc, s, 0).value.0, fuel - 1);
    }
  }

  /** A value that names its own placeholder: `{"a": "$a$"}` on `"$a$"`
      rewrites the string to itself forever. */
  lemma {:induction false} SelfReferenceDiverges(fuel: nat)
    ensures SubstituteAsWritten(map["a" := "$a$"], '$', "$a$", fuel) == None
    decreases fuel
  {
    if fuel > 0 {
      var vars := map["a" := "$a$"];
      var s := "$a$";
      assert Find(s, '$', 0) == Some(0);
      assert Find(s, '$', 1) == Some(2);
      assert s[1..2] == "a";
      assert s[..0] + vars["a"] + s[3..] == s;
      SelfReferenceDiverges(fuel - 1);
    }
  }

  /** Substitution corrected: each turn resumes the search just past the
      value it put in, so substituted text is never searched and the loop
      always stops. What the loop has passed is never changed again. */
  function ExpandFrom(vars: map<string, string>, esc: char, s: string, from: nat): (r: string)
    ensures from <= |s| ==> from <= |r| && r[..from] == s[..from]
    decreases |s| - from
  {
    match SubstituteOnce(vars, esc, s, from)
    case None => s
    case Some((s', from')) =>
      var (p, p2) := Placeholder(vars, esc, s, from).value;
      assert s' == s[..p] + vars[s[p + 1..p2]] + s[p2 + 1..];
      assert s'[..p] == s[..p];
      var e := ExpandFrom(vars, esc, s', from');
      assert from <= |s| ==> e[..from] == e[..from'][..from] == s'[..from'][..from];
      assert from <= |s| ==> s'[..from] == s'[..p][..from] == s[..p][..from];
      e
  }

  /** The same template with the corrected loop: the value is put in once. */
  lemma SelfReferenceExpandsOnce()
    ensures ExpandFrom(map["a" := "$a$"], '$', "$a$", 0) == "$a$"
  {
    var vars := map["a" := "$a$"];
    var s := "$a$";
    assert Find(s, '$', 0) == Some(0);
    assert Find(s, '$', 1) == Some(2);
    assert s[1..2] == "a";
    assert s[..0] + vars["a"] + s[3..] == s;
    assert Find(s, '$', 3) == None;
  }

  /** Where no value holds the escape character, the loop as written stops
      within `|template| + 1` turns with the corrected result. */
  lemma AgreesWithoutEscapesInValues(vars: map<string, string>, esc: char, s: string)
    requires forall name :: name in vars ==> esc !in vars[name]
    ensures SubstituteAsWritten(vars, esc, s, |s| + 1) == Some(ExpandFrom(vars, esc, s, 0))
  {
    AgreesFrom(vars, esc, s, 0, |s| + 1);
  }

  /** The induction behind `AgreesWithoutEscapesInValues`: with no escape
      before `from`, searching from the start is searching from `from`. */
  lemma {:induction false} AgreesFrom(vars: map<string, string>, esc: char, s: string, from: nat, fuel: nat)
    requires forall name :: name in vars ==> esc !in vars[name]
    requires from <= |s| && esc !in s[..from] && fuel > |s| - from
    ensures SubstituteAsWritten(vars, esc, s, fuel) == Some(ExpandFrom(vars, esc, s, from))
    decreases |s| - from
  {
    SameSearch(vars, esc, s, from);
    var r := SubstituteOnce(vars, esc, s, from);
    if r.None? {
      AgreesStop(vars, esc, s, from, fuel);
    } else {
      var s', from' := r.value.0, r.value.1;
      DoneHasNoEscape(vars, esc, s, from, s', from');
      AgreesFrom(vars, esc, s', from', fuel - 1);
      AgreesTurn(vars, esc, s, from, fuel, s', from');
    }
  }

  /** Both loops stop at the same turn. */
  lemma AgreesStop(vars: map<string, string>, esc: char, s: string, from: nat, fuel: nat)
    requires fuel > 0 && SubstituteOnce(vars, esc, s, 0) == SubstituteOnce(vars, esc, s, from) == None
    ensures SubstituteAsWritten(vars, esc, s, fuel) == Some(ExpandFrom(vars, esc, s, from))
  {
  }

  /** One turn of both loops, joined to the turns after it. */
  lemma AgreesTurn(vars: map<string, string>, esc: char, s: string, from: nat, fuel: nat, s': string, from': nat)
    requires fuel > 0 && SubstituteOnce(vars, esc, s, 0) == SubstituteOnce(vars, esc, s, from) == Some((s', from'))
    requires SubstituteAsWritten(vars, esc, s', fuel - 1) == Some(ExpandFrom(vars, esc, s', from'))
    ensures SubstituteAsWritten(vars, esc, s, fuel) == Some(ExpandFrom(vars, esc, s, from))
  {
  }

  /** With no escape before `from`, a turn from the start is a turn from
      `from`. */
  lemma SameSearch(vars: map<string, string>, esc: char, s: string, from: nat)
    requires from <= |s| && esc !in s[..from]
    ensures SubstituteOnce(vars, esc, s, 0) == SubstituteOnce(vars, esc, s, from)
  {
    forall k | 0 <= k < from
      ensures s[k] != esc
    {
      assert s[..from][k] == s[k];
    }
    FindSkip(s, esc, 0, from);
  }

  /** After a turn of the corrected loop behind escape-free text, the text
      before the new position is escape-free again. */
  lemma DoneHasNoEscape(vars: map<string, string>, esc: char, s: string, from: nat, s': string, from': nat)
    requires forall name :: name in vars ==> esc !in vars[name]
    requires from <= |s| && esc !in s[..from] && SubstituteOnce(vars, esc, s, from) == Some((s', from'))
    ensures from' <= |s'| && esc !in s'[..from']
  {
    var (p, p2) := Placeholder(vars, esc, s, from).value;
    var v := vars[s[p + 1..p2]];
    FindFirst(s, esc, from);
    assert s'[..from'] == s[..p] + v;
    forall k | 0 <= k < p
      ensures s[..p][k] != esc
    {
      assert s[..p][k] == s[k];
      if k < from {
        assert s[..from][k] == s[k];
      }
    }
  }

  /** The substitution loop of `print(vars, template)`, corrected: the
      placeholders of the template replaced one after the other, the search
      resuming after each value. */
  method ExpandTemplate(vars: map<string, string>, esc: char, template: string) returns (s: string)
    ensures s == ExpandFrom(vars, esc, CString(template), 0)
  {
    s := CString(template);
    ghost var target := ExpandFrom(vars, esc, s, 0);
    var from: nat := 0;
    while true
      invariant from <= |s| && ExpandFrom(vars, esc, s, from) == target
      decreases |s| - from
    {
      var pos := Find(s, esc, from);
      if pos.None? {
        break;
      }
      var pos2 := Find(s, esc, pos.value + 1);
      if pos2.None? {
        break;
      }
      var name := s[pos.value + 1..pos2.value];
      if name !in vars {
        break;
      }
      var v := vars[name];
      var s', from' := s[..pos.value] + v + s[pos2.value + 1..], pos.value + |v|;
      ExpandTurn(vars, esc, s, from, pos.value, pos2.value, s', from');
      s, from := s', from';
    }
  }

  /** One turn of the corrected loop leaves the final result as it was and
      less to search. */
  lemma ExpandTurn(vars: map<string, string>, esc: char, s: string, from: nat, pos: nat, pos2: nat, s': string, from': nat)
    requires Find(s, esc, from) == Some(pos) && Find(s, esc, pos + 1) == Some(pos2) && s[pos + 1..pos2] in vars
    requires s' == s[..pos] + vars[s[pos + 1..pos2]] + s[pos2 + 1..] && from' == pos + |vars[s[pos + 1..pos2]]|
    ensures from' <= |s'| && |s'| - from' < |s| - from
    ensures ExpandFrom(vars, esc, s', from') == ExpandFrom(vars, esc, s, from)
  {
    assert SubstituteOnce(vars, esc, s, from) == Some((s', from'));
  }

  /** A C string: what `c_str()` and `const char *` show of a string, up to
      its first NUL. */
  function CString(s: string): (r: string)
    ensures '\0' !in r && r <= s
    ensures |r| < |s| ==> s[|r|] == '\0'
  {
    FindFirst(s, '\0', 0);
    match Find(s, '\0', 0)
    case None => s
    case Some(i) => s[..i]
  }

  // ---------------------------------------------------------------------
  // Indentation.

  /** What `print(s)` appends: `ind` at the start and after every line
      feed that has text after it. An empty `s` still gets one `ind`; a
      final line feed gets none. */
  function Indented(s: string, ind: string): (r: string)
  {
    ind + Body(s, ind)
  }

  /** The text with `ind` after each line feed that is not the last
      character. */
  function Body(s: string, ind: string): (r: string)
    ensures |r| >= |s|
    decreases |s|
  {
    if s == [] then []
    else if s[0] == '\n' && |s| > 1 then [s[0]] + ind + Body(s[1..], ind)
    else [s[0]] + Body(s[1..], ind)
  }

  /** The inverse of `Indented`: `n` characters dropped at the start and
      after every line feed that has text after it. */
  function Dedent(r: string, n: nat): (t: string)
  {
    Strip(if |r| < n then [] else r[n..], n)
  }

  function Strip(r: string, n: nat): (t: string)
    decreases |r|
  {
    if r == [] then []
    else if r[0] == '\n' && |r| > 1 then [r[0]] + Strip(if |r| - 1 < n then [] else r[1 + n..], n)
    else [r[0]] + Strip(r[1..], n)
  }

  /** Indentation only adds: taking it off again gives the text back. */
  lemma DedentIndented(s: string, ind: string)
    ensures Dedent(Indented(s, ind), |ind|) == s
  {
    var r := Indented(s, ind);
    assert r[|ind|..] == Body(s, ind);
    StripBody(s, ind);
  }

  lemma {:induction false} StripBody(s: string, ind: string)
    ensures Strip(Body(s, ind), |ind|) == s
    decreases |s|
  {
    if s != [] {
      StripBody(s[1..], ind);
      var b := Body(s[1..], ind);
      if s[0] == '\n' && |s| > 1 {
        var r := [s[0]] + ind + b;
        assert r[1 + |ind|..] == b;
        assert r[1..] == ind + b;
      } else {
        var r := [s[0]] + b;
        assert r[1..] == b;
      }
      assert [s[0]] + s[1..] == s;
    }
  }

  /** Text without a line feed passes through unchanged. */
  lemma {:induction false} BodyPlain(x: string, y: string, ind: string)
    requires '\n' !in x
    ensures Body(x + y, ind) == x + Body(y, ind)
    decreases |x|
  {
    if x != [] {
      assert (x + y)[0] == x[0];
      assert (x + y)[1..] == x[1..] + y;
      if |x + y| > 1 {
        assert x[0] != '\n';
      }
      BodyPlain(x[1..], y, ind);
      assert [x[0]] + x[1..] == x;
    } else {
      assert x + y == y;
    }
  }

  /** One turn of the loop of `print(s)`: the first line, up to and
      including its line feed, and the indented rest. */
  lemma IndentedLine(rest: string, ind: string, lf: nat)
    requires Find(rest, '\n', 0) == Some(lf)
    ensures lf < |rest|
    ensures lf + 1 < |rest| ==> Indented(rest, ind) == ind + rest[..lf + 1] + Indented(rest[lf + 1..], ind)
    ensures lf + 1 == |rest| ==> Indented(rest, ind) == ind + rest[..lf + 1]
  {
    BeforeLineFeed(rest, lf);
    BodyPlain(rest[..lf], rest[lf..], ind);
    BodyAtLineFeed(rest, ind, lf);
    if lf + 1 == |rest| {
      assert rest[..lf + 1] == rest;
    } else {
      LineJoin(ind, rest[..lf + 1], Body(rest[lf + 1..], ind), Body(rest, ind));
    }
  }

  /** The loop of `print(s)` across one line: what is still to come is
      the indented rest. */
  lemma AppendedLine(target: string, done: string, ind: string, line: string, all: string, after: string, last: bool)
    requires target == done + all
    requires !last ==> all == ind + line + after
    requires last ==> all == ind + line
    ensures !last ==> target == done + ind + line + after
    ensures last ==> target == done + ind + line
  {
  }

  lemma LineJoin(ind: string, line: string, after: string, body: string)
    requires body == line + ind + after
    ensures ind + body == ind + line + (ind + after)
  {
  }

  /** No line feed comes before the first. */
  lemma BeforeLineFeed(rest: string, lf: nat)
    requires Find(rest, '\n', 0) == Some(lf)
    ensures lf < |rest| && '\n' !in rest[..lf] && rest[..lf] + rest[lf..] == rest
  {
    FindFirst(rest, '\n', 0);
    assert '\n' !in rest[..lf] by {
      forall k | 0 <= k < lf
        ensures rest[..lf][k] != '\n'
      {
        assert rest[..lf][k] == rest[k];
      }
    }
  }

  /** `Body` from the first line feed on. */
  lemma BodyAtLineFeed(rest: string, ind: string, lf: nat)
    requires Find(rest, '\n', 0) == Some(lf)
    ensures lf < |rest|
    ensures lf + 1 < |rest| ==> rest[..lf] + Body(rest[lf..], ind) == rest[..lf + 1] + ind + Body(rest[lf + 1..], ind)
    ensures lf + 1 == |rest| ==> rest[..lf] + Body(rest[lf..], ind) == rest
  {
    var y := rest[lf..];
    assert y[0] == '\n' && y[1..] == rest[lf + 1..];
    assert rest[..lf] + [y[0]] == rest[..lf + 1];
    if lf + 1 == |rest| {
      assert Body(y, ind) == [y[0]] + Body([], ind);
      assert rest[..lf + 1] == rest;
    }
  }

  lemma IndentedLast(rest: string, ind: string)
    requires Find(rest, '\n', 0).None?
    ensures Indented(rest, ind) == ind + rest
  {
    FindFirst(rest, '\n', 0);
    BodyPlain(rest, [], ind);
    assert rest + [] == rest;
  }

}
