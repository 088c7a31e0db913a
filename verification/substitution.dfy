/** `generateFinalString`: one `String.prototype.replace` pass with the
    placeholder regex, where the callback looks the captured name up in the
    collected values and aborts the run when there is none. */
module Substitution {
  import opened Outcomes
  import opened Scanner

  /** `name` is the first name of `names` that `values` does not define. */
  ghost predicate FirstMissing(names: seq<string>, values: map<string, string>, name: string) {
    exists k :: 0 <= k < |names| && names[k] == name && name !in values &&
      forall j :: 0 <= j < k ==> names[j] in values
  }

  /** Every name of `names` has a value. */
  ghost predicate AllDefined(names: seq<string>, values: map<string, string>) {
    forall k :: 0 <= k < |names| ==> names[k] in values
  }

  lemma FirstMissingCons(x: string, tail: seq<string>, values: map<string, string>, name: string)
    requires x in values && FirstMissing(tail, values, name)
    ensures FirstMissing([x] + tail, values, name)
  {
    var k :| 0 <= k < |tail| && tail[k] == name && name !in values &&
      forall j :: 0 <= j < k ==> tail[j] in values;
    var names := [x] + tail;
    assert names[k + 1] == name;
    assert forall j :: 1 <= j < k + 1 ==> names[j] == tail[j - 1];
  }

  lemma AllDefinedAppend(a: seq<string>, b: seq<string>, values: map<string, string>)
    ensures AllDefined(a + b, values) <==> AllDefined(a, values) && AllDefined(b, values)
  {
    if AllDefined(a, values) && AllDefined(b, values) {
      forall k | 0 <= k < |a + b|
        ensures (a + b)[k] in values
      {
        if k >= |a| {
          assert (a + b)[k] == b[k - |a|];
        }
      }
    }
    if AllDefined(a + b, values) {
      forall k | 0 <= k < |a|
        ensures a[k] in values
      {
        assert (a + b)[k] == a[k];
      }
      forall k | 0 <= k < |b|
        ensures b[k] in values
      {
        assert (a + b)[|a| + k] == b[k];
      }
    }
  }

  /** The first missing name of a list stays first when more names follow. */
  lemma FirstMissingLeft(a: seq<string>, b: seq<string>, values: map<string, string>, name: string)
    requires FirstMissing(a, values, name)
    ensures FirstMissing(a + b, values, name)
  {
    var k :| 0 <= k < |a| && a[k] == name && name !in values &&
      forall j :: 0 <= j < k ==> a[j] in values;
    assert (a + b)[k] == name;
  }

  /** After a fully defined list, the first missing name is that of the
      rest. */
  lemma FirstMissingRight(a: seq<string>, b: seq<string>, values: map<string, string>, name: string)
    requires AllDefined(a, values) && FirstMissing(b, values, name)
    ensures FirstMissing(a + b, values, name)
  {
    var k :| 0 <= k < |b| && b[k] == name && name !in values &&
      forall j :: 0 <= j < k ==> b[j] in values;
    var ab := a + b;
    assert ab[|a| + k] == name;
    forall j | 0 <= j < |a| + k
      ensures ab[j] in values
    {
      if j >= |a| {
        assert ab[j] == b[j - |a|];
      }
    }
  }

  /** The replacement pass over scanned pieces: text is copied, each hole is
      replaced by the value of its name, taken verbatim and never scanned
      again. The first hole without a value aborts with `MissingValue`. */
  function Fill(ps: seq<Piece>, values: map<string, string>): (r: Result<string>)
    ensures r.Ok? <==> AllDefined(HoleNames(ps), values)
    ensures r.Err? ==> r.error.MissingValue? && FirstMissing(HoleNames(ps), values, r.error.name)
  {
    if |ps| == 0 then Ok([])
    else
      var names := HoleNames(ps);
      var rest := Fill(ps[1..], values);
      assert names == (if ps[0].Hole? then [ps[0].name] else []) + HoleNames(ps[1..]);
      match ps[0]
      case Text(c) =>
        assert names == HoleNames(ps[1..]);
        if rest.Ok? then Ok([c] + rest.value) else rest
      case Hole(name) =>
        if name !in values then
          assert names[0] == name;
          Err(MissingValue(name))
        else if rest.Ok? then Ok(values[name] + rest.value)
        else
          FirstMissingCons(name, HoleNames(ps[1..]), values, rest.error.name);
          rest
  }

  /** `str.replace(placeholderRegex, callback)`: fails exactly when some
      matched name has no value, reporting the leftmost such name. */
  function Substitute(s: string, values: map<string, string>): (r: Result<string>)
    ensures r.Ok? <==> AllDefined(Names(s), values)
    ensures r.Err? ==> r.error.MissingValue? && FirstMissing(Names(s), values, r.error.name)
  {
    HoleNamesOfScan(s);
    Fill(Scan(s), values)
  }

  /** Filling a concatenation of pieces fills each part on its own and joins
      the results: every value lands at its hole, and the text produced for
      one part is never looked at again when filling the next. */
  lemma {:induction false} FillAppend(ps: seq<Piece>, qs: seq<Piece>, values: map<string, string>)
    requires Fill(ps, values).Ok? && Fill(qs, values).Ok?
    ensures Fill(ps + qs, values) == Ok(Fill(ps, values).value + Fill(qs, values).value)
  {
    var right := Fill(qs, values).value;
    if |ps| == 0 {
      assert ps + qs == qs;
      assert [] + right == right;
    } else {
      assert (ps + qs)[0] == ps[0] && (ps + qs)[1..] == ps[1..] + qs;
      FillAppend(ps[1..], qs, values);
      FillStep(ps, values);
      FillStep(ps + qs, values);
      JoinAssoc(PieceValue(ps[0], values), Fill(ps[1..], values).value, right);
    }
  }

  /** Joining strings is associative. */
  lemma JoinAssoc(a: string, b: string, c: string)
    ensures a + (b + c) == (a + b) + c
  {
  }

  /** What a piece becomes: its character, or the value of its name. */
  function PieceValue(p: Piece, values: map<string, string>): string {
    match p
    case Text(c) => [c]
    case Hole(name) => if name in values then values[name] else []
  }

  lemma FillStep(ps: seq<Piece>, values: map<string, string>)
    requires |ps| > 0 && Fill(ps, values).Ok?
    ensures Fill(ps[1..], values).Ok?
    ensures Fill(ps, values).value == PieceValue(ps[0], values) + Fill(ps[1..], values).value
  {
  }

  /** A hole is replaced by its value, verbatim. */
  lemma FillHole(name: string, values: map<string, string>)
    requires name in values
    ensures Fill([Hole(name)], values) == Ok(values[name])
  {
    assert [Hole(name)][1..] == [];
    assert values[name] + [] == values[name];
  }

  /** Pieces without holes are copied unchanged, whatever the values. */
  lemma {:induction false} FillTextOnly(ps: seq<Piece>, values: map<string, string>)
    requires HoleNames(ps) == []
    ensures Fill(ps, values) == Ok(Render(ps))
  {
    if |ps| > 0 {
      RenderCons(ps[0], ps[1..]);
      assert [ps[0]] + ps[1..] == ps;
      FillTextOnly(ps[1..], values);
    }
  }

  /** Substituting a string in which no token occurs returns it unchanged,
      whatever the values. */
  lemma SubstituteNoToken(s: string, values: map<string, string>)
    requires forall i, j :: 0 <= i <= j <= |s| ==> !IsToken(s[i..j])
    ensures Substitute(s, values) == Ok(s)
  {
    NoNamesIffNoToken(s);
    HoleNamesOfScan(s);
    FillTextOnly(Scan(s), values);
    ScanRenders(s);
  }

  /** A string without placeholders substitutes to itself. */
  lemma SubstituteNoNames(s: string, values: map<string, string>)
    requires Names(s) == []
    ensures Substitute(s, values) == Ok(s)
  {
    NoNamesIffNoToken(s);
    SubstituteNoToken(s, values);
  }

  /** The values that give each name back its own token. */
  ghost predicate RestoresTokens(ps: seq<Piece>, values: map<string, string>) {
    forall k :: 0 <= k < |ps| && ps[k].Hole? ==>
      ps[k].name in values && values[ps[k].name] == Start + ps[k].name + End
  }

  lemma {:induction false} FillRestoring(ps: seq<Piece>, values: map<string, string>)
    requires RestoresTokens(ps, values)
    ensures Fill(ps, values) == Ok(Render(ps))
  {
    if |ps| > 0 {
      RenderCons(ps[0], ps[1..]);
      assert [ps[0]] + ps[1..] == ps;
      FillRestoring(ps[1..], values);
    }
  }

  /** The unmatched text survives substitution verbatim and in order: when
      every name is replaced by its own token the input comes back. */
  lemma SubstituteRestoring(s: string, values: map<string, string>)
    requires forall k :: 0 <= k < |Names(s)| ==>
      Names(s)[k] in values && values[Names(s)[k]] == Start + Names(s)[k] + End
    ensures Substitute(s, values) == Ok(s)
  {
    var ps := Scan(s);
    HoleNamesOfScan(s);
    forall k | 0 <= k < |ps| && ps[k].Hole?
      ensures ps[k].name in values && values[ps[k].name] == Start + ps[k].name + End
    {
      HoleIsName(ps, k);
    }
    FillRestoring(ps, values);
    ScanRenders(s);
  }

  /** The name of a hole is one of the hole names. */
  lemma {:induction false} HoleIsName(ps: seq<Piece>, k: nat)
    requires k < |ps| && ps[k].Hole?
    ensures ps[k].name in HoleNames(ps)
  {
    var head := if ps[0].Hole? then [ps[0].name] else [];
    assert HoleNames(ps) == head + HoleNames(ps[1..]);
    if k > 0 {
      HoleIsName(ps[1..], k - 1);
      assert ps[1..][k - 1] == ps[k];
    }
  }
}
