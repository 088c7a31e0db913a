/** The nested object a template is parsed into: a directory maps child
    names to subtrees, a file is its content string. An object is an ordered
    list of entries with distinct keys; assigning a key that is already
    present replaces its value where it stands. */
module Tree {
  import opened Outcomes
  import opened Scanner

  datatype Node = File(content: string) | Dir(entries: seq<Entry>)
  datatype Entry = Entry(name: string, node: Node)

  predicate HasKey(es: seq<Entry>, key: string) {
    exists i :: 0 <= i < |es| && es[i].name == key
  }

  predicate UniqueKeys(es: seq<Entry>) {
    forall i, j :: 0 <= i < j < |es| ==> es[i].name != es[j].name
  }

  /** Entry `i` is the last one with key `key`. */
  predicate LastWith(es: seq<Entry>, i: int, key: string) {
    0 <= i < |es| && es[i].name == key && forall j :: i < j < |es| ==> es[j].name != key
  }

  /** The value a sequence of assignments leaves under `key`: that of the
      last entry with that key. */
  function Lookup(es: seq<Entry>, key: string): (r: Option<Node>)
    ensures r.Some? <==> HasKey(es, key)
    ensures r.Some? ==> exists i :: LastWith(es, i, key) && es[i].node == r.value
    decreases |es|
  {
    if |es| == 0 then None
    else
      var last := es[|es| - 1];
      var init := es[..|es| - 1];
      if last.name == key then
        assert LastWith(es, |es| - 1, key);
        Some(last.node)
      else
        var r := Lookup(init, key);
        assert HasKey(es, key) ==> HasKey(init, key) by {
          if HasKey(es, key) {
            var i :| 0 <= i < |es| && es[i].name == key;
            assert init[i] == es[i];
          }
        }
        if r.Some? then
          var i :| LastWith(init, i, key) && init[i].node == r.value;
          LastWithExtend(es, i, key);
          r
        else
          assert !HasKey(init, key);
          r
  }

  /** The last entry with a key stays last when an entry with another key
      follows. */
  lemma LastWithExtend(es: seq<Entry>, i: int, key: string)
    requires |es| > 0 && LastWith(es[..|es| - 1], i, key) && es[|es| - 1].name != key
    ensures LastWith(es, i, key)
  {
    assert forall j :: 0 <= j < |es| - 1 ==> es[..|es| - 1][j] == es[j];
  }

  /** The lookup of a key yields the entry that is last with it. */
  lemma LastWithUnique(es: seq<Entry>, i: int, key: string)
    requires LastWith(es, i, key)
    ensures Lookup(es, key) == Some(es[i].node)
  {
    var r := Lookup(es, key);
    var m :| LastWith(es, m, key) && es[m].node == r.value;
    assert m == i;
  }

  /** A prefix is the shorter prefix followed by its last entry. */
  lemma PrefixStep(es: seq<Entry>, n: nat)
    requires 0 < n <= |es|
    ensures es[..n] == es[..n - 1] + [es[n - 1]]
  {
  }

  /** Position of `key` among the entries, or `|es|` when it is absent. */
  function Find(es: seq<Entry>, key: string): (i: nat)
    ensures i <= |es|
    ensures i < |es| ==> es[i].name == key
    ensures forall j :: 0 <= j < i ==> es[j].name != key
  {
    if |es| == 0 then 0
    else if es[0].name == key then 0
    else 1 + Find(es[1..], key)
  }

  /** `res[key] = node` on an object. */
  function Put(es: seq<Entry>, key: string, node: Node): (r: seq<Entry>)
    requires UniqueKeys(es)
    ensures UniqueKeys(r)
    ensures Lookup(r, key) == Some(node)
    ensures forall k :: k != key ==> Lookup(r, k) == Lookup(es, k)
    ensures HasKey(es, key) ==> |r| == |es|
    ensures !HasKey(es, key) ==> r == es + [Entry(key, node)]
    ensures forall i :: 0 <= i < |es| ==> r[i].name == es[i].name
  {
    var i := Find(es, key);
    if i < |es| then
      var r := es[i := Entry(key, node)];
      assert forall m :: 0 <= m < |es| && m != i ==> r[m] == es[m];
      assert UniqueKeys(r);
      forall k | k != key
        ensures Lookup(r, k) == Lookup(es, k)
      {
        LookupUnique(es, k);
        LookupUnique(r, k);
        if HasKey(es, k) {
          var m :| 0 <= m < |es| && es[m].name == k;
          assert r[m] == es[m];
        } else {
          assert !HasKey(r, k);
        }
      }
      assert r[i] == Entry(key, node);
      LookupUnique(r, key);
      assert HasKey(es, key);
      r
    else
      var r := es + [Entry(key, node)];
      assert r[..|r| - 1] == es;
      r
  }

  /** Assigning a key leaves the other entries as they were: each entry of
      the result is an old entry or the assigned one. */
  lemma PutEntries(es: seq<Entry>, key: string, node: Node)
    requires UniqueKeys(es)
    ensures forall i :: 0 <= i < |Put(es, key, node)| ==>
      Put(es, key, node)[i] in es || Put(es, key, node)[i] == Entry(key, node)
  {
    var r := Put(es, key, node);
    var i := Find(es, key);
    if i < |es| {
      assert r == es[i := Entry(key, node)];
      forall m | 0 <= m < |r| && m != i
        ensures r[m] in es
      {
        assert r[m] == es[m];
      }
    } else {
      assert r == es + [Entry(key, node)];
      forall m | 0 <= m < |es|
        ensures r[m] in es
      {
        assert r[m] == es[m];
      }
    }
  }

  /** With distinct keys the value under a key is that of its one entry. */
  lemma LookupUnique(es: seq<Entry>, key: string)
    requires UniqueKeys(es)
    ensures forall i :: 0 <= i < |es| && es[i].name == key ==> Lookup(es, key) == Some(es[i].node)
  {
  }

  /** The object built by assigning the entries one after the other, as the
      `forEach` loops that fill `res` do. */
  function Assign(es: seq<Entry>): (r: seq<Entry>)
    ensures UniqueKeys(r)
    ensures forall k :: Lookup(r, k) == Lookup(es, k)
    ensures |r| <= |es|
    decreases |es|
  {
    if |es| == 0 then []
    else
      var init := es[..|es| - 1];
      var last := es[|es| - 1];
      var r := Put(Assign(init), last.name, last.node);
      assert forall k :: k != last.name ==> Lookup(es, k) == Lookup(init, k);
      r
  }

  /** Entries with distinct keys are assigned without loss, in order. */
  lemma {:induction false} AssignDistinct(es: seq<Entry>)
    requires UniqueKeys(es)
    ensures Assign(es) == es
    decreases |es|
  {
    if |es| > 0 {
      var init := es[..|es| - 1];
      AssignDistinct(init);
      assert !HasKey(init, es[|es| - 1].name);
      assert init + [es[|es| - 1]] == es;
    }
  }

  /** If the entries before the last have distinct keys, a clash involves
      the last entry. */
  lemma ClashWithLast(es: seq<Entry>)
    requires |es| > 0 && UniqueKeys(es[..|es| - 1]) && !UniqueKeys(es)
    ensures HasKey(es[..|es| - 1], es[|es| - 1].name)
  {
    var init := es[..|es| - 1];
    var i, j :| 0 <= i < j < |es| && es[i].name == es[j].name;
    if j < |es| - 1 {
      assert false;
    }
    assert init[i].name == es[|es| - 1].name;
  }

  /** A key clash loses an entry: the later one replaces the earlier. */
  lemma {:induction false} AssignClash(es: seq<Entry>)
    requires !UniqueKeys(es)
    ensures |Assign(es)| < |es|
    decreases |es|
  {
    var init := es[..|es| - 1];
    var last := es[|es| - 1];
    var a := Assign(init);
    assert Assign(es) == Put(a, last.name, last.node);
    if UniqueKeys(init) {
      AssignDistinct(init);
      ClashWithLast(es);
    } else {
      AssignClash(init);
      assert |Put(a, last.name, last.node)| <= |a| + 1;
    }
  }

  /** A directory as the file system lists it: the names in each directory
      are distinct. */
  ghost predicate WellFormed(node: Node)
    decreases node
  {
    match node
    case File(_) => true
    case Dir(es) => UniqueKeys(es) && forall i :: 0 <= i < |es| ==> WellFormed(es[i].node)
  }

  /** In a well-formed directory an entry's name is not among those before
      it, and the entry is well-formed itself. */
  lemma WellFormedLast(es: seq<Entry>, n: nat)
    requires WellFormed(Dir(es)) && 0 < n <= |es|
    ensures !HasKey(es[..n - 1], es[n - 1].name) && WellFormed(es[n - 1].node)
  {
  }

  /** The placeholder names of the first `n` entries of a directory, in the
      order a depth-first walk meets them. */
  function NamesIn(dir: Node, n: nat): seq<string>
    requires dir.Dir? && n <= |dir.entries|
    decreases dir, n
  {
    if n == 0 then [] else NamesIn(dir, n - 1) + EntryNames(dir.entries[n - 1])
  }

  /** The names an entry contributes: those of its key, then those of its
      content or of the directory below it. */
  function EntryNames(e: Entry): seq<string>
    decreases e.node, if e.node.Dir? then |e.node.entries| + 2 else 1
  {
    Names(e.name) + NodeNames(e.node)
  }

  /** The placeholder names of a whole node. */
  function NodeNames(node: Node): seq<string>
    decreases node, if node.Dir? then |node.entries| + 1 else 0
  {
    match node
    case File(c) => Names(c)
    case Dir(es) => NamesIn(node, |es|)
  }

  /** Every name of `names` is among `keys`. */
  predicate Within(names: seq<string>, keys: seq<string>) {
    forall x :: x in names ==> x in keys
  }

  /** The names of every entry are among `keys`. */
  predicate Covers(es: seq<Entry>, keys: seq<string>) {
    forall i :: 0 <= i < |es| ==> Within(EntryNames(es[i]), keys)
  }

  /** The names of a directory's first `n` entries are among `keys` when
      those of each of these entries are. */
  lemma {:induction false} CoversNamesIn(dir: Node, n: nat, keys: seq<string>)
    requires dir.Dir? && n <= |dir.entries|
    requires forall i :: 0 <= i < n ==> Within(EntryNames(dir.entries[i]), keys)
    ensures Within(NamesIn(dir, n), keys)
    decreases n
  {
    if n > 0 {
      CoversNamesIn(dir, n - 1, keys);
      assert Within(EntryNames(dir.entries[n - 1]), keys);
    }
  }

  /** The names of a directory are among `keys` when those of each of its
      entries are. */
  lemma CoversNodeNames(es: seq<Entry>, keys: seq<string>)
    requires Covers(es, keys)
    ensures Within(NodeNames(Dir(es)), keys)
  {
    CoversNamesIn(Dir(es), |es|, keys);
  }

  /** Covering survives a growing set of keys. */
  lemma CoversGrow(es: seq<Entry>, keys: seq<string>, more: seq<string>)
    requires Covers(es, keys) && Within(keys, more)
    ensures Covers(es, more)
  {
  }

  /** Assigning a covered entry into covered entries keeps them covered. */
  lemma CoversPut(es: seq<Entry>, keys: seq<string>, key: string, node: Node)
    requires UniqueKeys(es) && Covers(es, keys) && Within(EntryNames(Entry(key, node)), keys)
    ensures Covers(Put(es, key, node), keys)
  {
    var r := Put(es, key, node);
    PutEntries(es, key, node);
    forall i | 0 <= i < |r|
      ensures Within(EntryNames(r[i]), keys)
    {
      if r[i] != Entry(key, node) {
        var j :| 0 <= j < |es| && es[j] == r[i];
      }
    }
  }
}
