/** `templateVars` while the template is parsed: an object whose keys are the
    placeholder names found so far, each mapped to null. Since every value is
    null until the values are collected, the registry is modelled by its keys
    in insertion order (the order `Object.keys` reports them in). */
module Registry {
  import opened Outcomes
  import opened Scanner

  type Keys = seq<string>

  /** No key is listed twice: the keys of an object are distinct. */
  predicate Distinct(ks: Keys) {
    forall i, j :: 0 <= i < j < |ks| ==> ks[i] != ks[j]
  }

  /** `templateVars[name] = null`: a new key goes to the end, an existing key
      keeps its place. */
  function Add(ks: Keys, name: string): (r: Keys)
    ensures Distinct(ks) ==> Distinct(r)
    ensures forall x :: x in r <==> x in ks || x == name
    ensures |ks| <= |r| <= |ks| + 1 && r[..|ks|] == ks
  {
    if name in ks then ks else ks + [name]
  }

  /** Adds the names in order, one `templateVars[name] = null` at a time. */
  function AddAll(ks: Keys, names: seq<string>): (r: Keys)
    ensures Distinct(ks) ==> Distinct(r)
    ensures forall x :: x in r <==> x in ks || x in names
    ensures |ks| <= |r| && r[..|ks|] == ks
    decreases |names|
  {
    if |names| == 0 then ks
    else
      var r := AddAll(Add(ks, names[0]), names[1..]);
      assert forall x :: x in names <==> x == names[0] || x in names[1..];
      r
  }

  /** `registerTemplateVarsFromSource`: every token the global regex matches
      in `source` is cut down to its name and registered. A source without a
      match (`match` returns null) leaves the registry as it is. */
  function Register(ks: Keys, source: string): (r: Keys)
    ensures Distinct(ks) ==> Distinct(r)
    ensures |ks| <= |r| && r[..|ks|] == ks
    ensures forall x :: x in r <==> x in ks || x in Names(source)
    ensures forall x :: x in r && x !in ks ==> IsName(x)
  {
    match Match(source)
    case None => ks
    case Some(tokens) =>
      var names := seq(|tokens|, k requires 0 <= k < |tokens| => Body(tokens[k]));
      assert names == Names(source);
      NamesAreNames(source);
      AddAll(ks, names)
  }

  /** Text without a match registers nothing. */
  lemma RegisterNoMatch(ks: Keys, source: string)
    requires forall i, j :: 0 <= i <= j <= |source| ==> !IsToken(source[i..j])
    ensures Register(ks, source) == ks
  {
    NoNamesIffNoToken(source);
  }

  /** Adding two lists of names one after the other adds their
      concatenation. */
  lemma {:induction false} AddAllAppend(ks: Keys, a: seq<string>, b: seq<string>)
    ensures AddAll(AddAll(ks, a), b) == AddAll(ks, a + b)
    decreases |a|
  {
    if |a| == 0 {
      assert a + b == b;
    } else {
      var ks1 := Add(ks, a[0]);
      var t := a[1..];
      var ab := a + b;
      assert ab[0] == a[0];
      assert ab[1..] == t + b;
      assert AddAll(ks, ab) == AddAll(ks1, t + b);
      assert AddAll(ks, a) == AddAll(ks1, t);
      AddAllAppend(ks1, t, b);
    }
  }

  /** Registering a text adds the names its matches carry, in match order. */
  lemma RegisterAddsNames(ks: Keys, source: string)
    ensures Register(ks, source) == AddAll(ks, Names(source))
  {
    match Match(source)
    case None =>
      assert Names(source) == [];
    case Some(tokens) =>
      var names := seq(|tokens|, k requires 0 <= k < |tokens| => Body(tokens[k]));
      assert names == Names(source);
  }
}
