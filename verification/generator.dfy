/** `generateFinalStructure`: rebuilds the parsed tree with every key and
    every file content substituted. Entries are visited in order; a key is
    substituted before its value, and a sub-directory is rebuilt completely
    before the next entry. The first missing value aborts the whole run, so
    computing all pairs first and assigning them afterwards behaves the
    same. */
module Generator {
  import opened Outcomes
  import opened Scanner
  import opened Substitution
  import opened Tree

  /** `out` is what entry `e` becomes: its key substituted, a file's
      content substituted, a directory rebuilt. */
  predicate Converts(e: Entry, out: Entry, values: map<string, string>)
    decreases e.node, if e.node.Dir? then |e.node.entries| + 2 else 0
  {
    Substitute(e.name, values) == Ok(out.name) &&
    match e.node
    case File(c) => out.node.File? && Substitute(c, values) == Ok(out.node.content)
    case Dir(_) => Generate(e.node, values) == Ok(out.node)
  }

  /** What one entry becomes. The key is substituted first, then the file
      content, or the sub-directory is rebuilt. */
  function SubstituteEntry(e: Entry, values: map<string, string>): (r: Result<Entry>)
    ensures r.Ok? <==> AllDefined(EntryNames(e), values)
    ensures r.Err? ==> r.error.MissingValue? && FirstMissing(EntryNames(e), values, r.error.name)
    ensures r.Ok? ==> Converts(e, r.value, values)
    decreases e.node, if e.node.Dir? then |e.node.entries| + 3 else 1
  {
    var own := Names(e.name);
    var inner := NodeNames(e.node);
    AllDefinedAppend(own, inner, values);
    match Substitute(e.name, values)
    case Err(f) =>
      FirstMissingLeft(own, inner, values, f.name);
      Err(f)
    case Ok(key) =>
      var inside := match e.node
        case File(c) =>
          (match Substitute(c, values)
           case Err(f) => Err(f)
           case Ok(text) => Ok(File(text)))
        case Dir(_) => Generate(e.node, values);
      if inside.Err? then
        FirstMissingRight(own, inner, values, inside.error.name);
        Err(inside.error)
      else
        Ok(Entry(key, inside.value))
  }

  /** The substituted pairs of the first `n` entries of `dir`, before they
      are assigned into the result object. */
  function SubstituteEntries(dir: Node, n: nat, values: map<string, string>): (r: Result<seq<Entry>>)
    requires dir.Dir? && n <= |dir.entries|
    ensures r.Ok? <==> AllDefined(NamesIn(dir, n), values)
    ensures r.Err? ==> r.error.MissingValue? && FirstMissing(NamesIn(dir, n), values, r.error.name)
    ensures r.Ok? ==> |r.value| == n
    ensures r.Ok? ==> forall i :: 0 <= i < n ==> Converts(dir.entries[i], r.value[i], values)
    decreases dir, n
  {
    if n == 0 then Ok([])
    else
      var e := dir.entries[n - 1];
      var front := NamesIn(dir, n - 1);
      AllDefinedAppend(front, EntryNames(e), values);
      var rest := SubstituteEntries(dir, n - 1, values);
      if rest.Err? then
        FirstMissingLeft(front, EntryNames(e), values, rest.error.name);
        rest
      else
        var conv := SubstituteEntry(e, values);
        if conv.Err? then
          FirstMissingRight(front, EntryNames(e), values, conv.error.name);
          Err(conv.error)
        else
          ConvertsAppend(dir, n, rest.value, conv.value, values);
          Ok(rest.value + [conv.value])
  }

  /** Appending the conversion of entry `n - 1` to those of the entries
      before it gives the conversions of the first `n` entries. */
  lemma ConvertsAppend(dir: Node, n: nat, before: seq<Entry>, out: Entry, values: map<string, string>)
    requires dir.Dir? && 0 < n <= |dir.entries| && |before| == n - 1
    requires forall i :: 0 <= i < n - 1 ==> Converts(dir.entries[i], before[i], values)
    requires Converts(dir.entries[n - 1], out, values)
    ensures forall i :: 0 <= i < n ==> Converts(dir.entries[i], (before + [out])[i], values)
  {
    var r := before + [out];
    forall i | 0 <= i < n
      ensures Converts(dir.entries[i], r[i], values)
    {
      if i < n - 1 {
        assert r[i] == before[i];
      } else {
        assert r[i] == out;
      }
    }
  }

  /** `generateFinalStructure(rootNode)`: fails exactly when a placeholder
      of the tree has no value, naming the first one met; otherwise yields
      an object. */
  function Generate(node: Node, values: map<string, string>): (r: Result<Node>)
    requires node.Dir?
    ensures r.Ok? <==> AllDefined(NodeNames(node), values)
    ensures r.Err? ==> r.error.MissingValue? && FirstMissing(NodeNames(node), values, r.error.name)
    ensures r.Ok? ==> r.value.Dir? && UniqueKeys(r.value.entries) && |r.value.entries| <= |node.entries|
    decreases node, |node.entries| + 1
  {
    match SubstituteEntries(node, |node.entries|, values)
    case Err(f) => Err(f)
    case Ok(pairs) => Ok(Dir(Assign(pairs)))
  }

  /** The substituted keys of a directory's entries are pairwise distinct. */
  ghost predicate KeysStayDistinct(node: Node, values: map<string, string>)
    requires node.Dir?
  {
    forall i, j :: 0 <= i < j < |node.entries| ==>
      Substitute(node.entries[i].name, values) != Substitute(node.entries[j].name, values)
  }

  /** Without a collision the result has one entry per input entry, in the
      same order, each the conversion of its source entry. */
  lemma GenerateShape(node: Node, values: map<string, string>)
    requires node.Dir? && Generate(node, values).Ok? && KeysStayDistinct(node, values)
    ensures |Generate(node, values).value.entries| == |node.entries|
    ensures forall i :: 0 <= i < |node.entries| ==>
      Converts(node.entries[i], Generate(node, values).value.entries[i], values)
  {
    var pairs := SubstituteEntries(node, |node.entries|, values).value;
    assert UniqueKeys(pairs) by {
      forall i, j | 0 <= i < j < |pairs|
        ensures pairs[i].name != pairs[j].name
      {
        assert Converts(node.entries[i], pairs[i], values);
        assert Converts(node.entries[j], pairs[j], values);
      }
    }
    AssignDistinct(pairs);
  }

  /** On a collision the later entry wins: the value under a substituted key
      is the conversion of the last entry whose key substitutes to it. */
  lemma GenerateLaterWins(node: Node, values: map<string, string>, j: nat)
    requires node.Dir? && Generate(node, values).Ok? && j < |node.entries|
    requires forall m :: j < m < |node.entries| ==>
      Substitute(node.entries[m].name, values) != Substitute(node.entries[j].name, values)
    ensures Substitute(node.entries[j].name, values).Ok?
    ensures var key := Substitute(node.entries[j].name, values).value;
      var found := Lookup(Generate(node, values).value.entries, key);
      found.Some? && Converts(node.entries[j], Entry(key, found.value), values)
  {
    var pairs := SubstituteEntries(node, |node.entries|, values).value;
    var key := pairs[j].name;
    assert Converts(node.entries[j], pairs[j], values);
    forall m | j < m < |pairs|
      ensures pairs[m].name != key
    {
      assert Converts(node.entries[m], pairs[m], values);
    }
    assert LastWith(pairs, j, key);
    LastWithUnique(pairs, j, key);
  }

  /** The keys of the result are exactly the substituted input keys. */
  lemma GenerateKeys(node: Node, values: map<string, string>)
    requires node.Dir? && Generate(node, values).Ok?
    ensures forall k :: HasKey(Generate(node, values).value.entries, k) <==>
      exists i :: 0 <= i < |node.entries| && Substitute(node.entries[i].name, values) == Ok(k)
  {
    var pairs := SubstituteEntries(node, |node.entries|, values).value;
    forall k
      ensures HasKey(Assign(pairs), k) <==> HasKey(pairs, k)
    {
      assert Lookup(Assign(pairs), k) == Lookup(pairs, k);
    }
    forall i | 0 <= i < |node.entries|
      ensures Substitute(node.entries[i].name, values) == Ok(pairs[i].name)
    {
      assert Converts(node.entries[i], pairs[i], values);
    }
  }

  lemma {:induction false} EntriesNoPlaceholders(dir: Node, n: nat, values: map<string, string>)
    requires dir.Dir? && n <= |dir.entries| && WellFormed(dir) && NamesIn(dir, n) == []
    ensures SubstituteEntries(dir, n, values) == Ok(dir.entries[..n])
    decreases dir, n
  {
    if n > 0 {
      var e := dir.entries[n - 1];
      assert |NamesIn(dir, n)| == |NamesIn(dir, n - 1)| + |EntryNames(e)|;
      assert WellFormed(e.node);
      EntriesNoPlaceholders(dir, n - 1, values);
      EntryNoPlaceholders(e, values);
      var before := dir.entries[..n - 1];
      assert SubstituteEntries(dir, n, values) == Ok(before + [e]);
      PrefixStep(dir.entries, n);
    }
  }

  lemma {:induction false} EntryNoPlaceholders(e: Entry, values: map<string, string>)
    requires WellFormed(e.node) && EntryNames(e) == []
    ensures SubstituteEntry(e, values) == Ok(e)
    decreases e.node, if e.node.Dir? then |e.node.entries| + 2 else 0
  {
    assert Names(e.name) == [] && NodeNames(e.node) == [];
    SubstituteNoNames(e.name, values);
    match e.node
    case File(c) =>
      SubstituteNoNames(c, values);
    case Dir(_) =>
      GenerateNoPlaceholders(e.node, values);
  }

  /** A well-formed tree without placeholders is rebuilt unchanged, whatever
      the values. */
  lemma {:induction false} GenerateNoPlaceholders(node: Node, values: map<string, string>)
    requires node.Dir? && WellFormed(node) && NodeNames(node) == []
    ensures Generate(node, values) == Ok(node)
    decreases node, |node.entries| + 1
  {
    EntriesNoPlaceholders(node, |node.entries|, values);
    assert node.entries[..|node.entries|] == node.entries;
    AssignDistinct(node.entries);
  }
}
