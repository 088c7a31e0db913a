/** `parseTemplateStructure`: walks a template directory, copies it into a
    nested object and registers the placeholders met on the way, those of
    each entry's full path and, for a file, those of its content. The file
    system is an in-memory tree: a directory is the list `readdirSync`
    returns, in that order. */
module Parser {
  import opened Scanner
  import opened Registry
  import opened Tree

  /** `config.templateDir`. */
  const TemplateDir: string := "./templates"

  /** The object built for a directory and the registry after the walk. */
  datatype Parsed = Parsed(entries: seq<Entry>, keys: Keys)

  /** The value built for one entry and the registry after visiting it. */
  datatype Visit = Visit(node: Node, keys: Keys)

  /** The full path of an entry, `${rootDir}/${name}`. */
  function FullPath(rootDir: string, name: string): (r: string)
    ensures |r| == |rootDir| + 1 + |name|
    ensures r[..|rootDir|] == rootDir && r[|rootDir|] == '/' && r[|rootDir| + 1..] == name
  {
    rootDir + "/" + name
  }

  /** The names the walk registers for one entry, in the order it registers
      them: those of the full path, then those of the file content or of
      the directory below. */
  function EntryVisited(rootDir: string, e: Entry): seq<string>
    decreases e.node, if e.node.Dir? then |e.node.entries| + 1 else 0
  {
    var full := FullPath(rootDir, e.name);
    Names(full) +
      match e.node
      case File(c) => Names(c)
      case Dir(es) => Visited(full, e.node, |es|)
  }

  /** The names the walk registers for the first `n` entries of `dir`. */
  function Visited(rootDir: string, dir: Node, n: nat): seq<string>
    requires dir.Dir? && n <= |dir.entries|
    decreases dir, n
  {
    if n == 0 then []
    else Visited(rootDir, dir, n - 1) + EntryVisited(rootDir, dir.entries[n - 1])
  }

  /** One step of the `forEach`: register the full path, then either walk
      the directory or register the file content. The registry gains the
      visited names, each once, in the order they are first met; every
      placeholder of the entry's name and of the value built for it ends up
      registered; the value keeps the entry's kind. */
  function ParseEntry(rootDir: string, e: Entry, reg: Keys): (r: Visit)
    ensures r.keys == AddAll(reg, EntryVisited(rootDir, e))
    ensures Within(Names(e.name), r.keys) && Within(NodeNames(r.node), r.keys)
    ensures r.node.File? <==> e.node.File?
    ensures WellFormed(e.node) ==> r.node == e.node
    decreases e.node, if e.node.Dir? then |e.node.entries| + 2 else 1
  {
    var full := FullPath(rootDir, e.name);
    var reg1 := Register(reg, full);
    RegisterAddsNames(reg, full);
    assert full == (rootDir + "/") + e.name;
    NamesOfSuffix(rootDir + "/", e.name);
    match e.node
    case File(c) =>
      RegisterAddsNames(reg1, c);
      AddAllAppend(reg, Names(full), Names(c));
      Visit(File(c), Register(reg1, c))
    case Dir(es) =>
      var sub := ParseEntries(full, e.node, |es|, reg1);
      AddAllAppend(reg, Names(full), Visited(full, e.node, |es|));
      CoversNodeNames(sub.entries, sub.keys);
      assert WellFormed(e.node) ==> sub.entries == es by {
        assert es[..|es|] == es;
      }
      Visit(Dir(sub.entries), sub.keys)
  }

  /** The walk over the first `n` entries of `dir`, starting from registry
      `reg`: the registry gains the visited names, each once, in first-visit
      order; every placeholder of the built object is registered; a listing
      with distinct names is copied as it is. */
  function ParseEntries(rootDir: string, dir: Node, n: nat, reg: Keys): (r: Parsed)
    requires dir.Dir? && n <= |dir.entries|
    ensures UniqueKeys(r.entries)
    ensures r.keys == AddAll(reg, Visited(rootDir, dir, n))
    ensures Covers(r.entries, r.keys)
    ensures WellFormed(dir) ==> r.entries == dir.entries[..n]
    decreases dir, n
  {
    if n == 0 then Parsed([], reg)
    else
      var before := ParseEntries(rootDir, dir, n - 1, reg);
      var e := dir.entries[n - 1];
      var visit := ParseEntry(rootDir, e, before.keys);
      AddAllAppend(reg, Visited(rootDir, dir, n - 1), EntryVisited(rootDir, e));
      CoversGrow(before.entries, before.keys, visit.keys);
      CoversPut(before.entries, visit.keys, e.name, visit.node);
      assert WellFormed(dir) ==> !HasKey(before.entries, e.name) && visit.node == e.node by {
        if WellFormed(dir) {
          WellFormedLast(dir.entries, n);
        }
      }
      PrefixStep(dir.entries, n);
      Parsed(Put(before.entries, e.name, visit.node), visit.keys)
  }

  /** `parseTemplateStructure(rootDir)` with an empty registry: the keys are
      the visited names without repetition, all placeholder names, and they
      include every placeholder of the built tree. */
  function Parse(rootDir: string, dir: Node): (r: Parsed)
    requires dir.Dir?
    ensures Distinct(r.keys)
    ensures forall x :: x in r.keys <==> x in Visited(rootDir, dir, |dir.entries|)
    ensures forall x :: x in r.keys ==> IsName(x)
    ensures Within(NodeNames(Dir(r.entries)), r.keys)
    ensures WellFormed(dir) ==> Dir(r.entries) == dir
  {
    var r := ParseEntries(rootDir, dir, |dir.entries|, []);
    assert dir.entries[..|dir.entries|] == dir.entries;
    VisitedAreNames(rootDir, dir, |dir.entries|);
    CoversNodeNames(r.entries, r.keys);
    r
  }

  /** `parseTemplate(name)`: the template is read from its directory under
      the template root. */
  function ParseTemplate(name: string, dir: Node): (r: Parsed)
    requires dir.Dir?
  {
    Parse(FullPath(TemplateDir, name), dir)
  }

  lemma {:induction false} EntryVisitedAreNames(rootDir: string, e: Entry)
    ensures forall x :: x in EntryVisited(rootDir, e) ==> IsName(x)
    decreases e.node, if e.node.Dir? then |e.node.entries| + 1 else 0
  {
    var full := FullPath(rootDir, e.name);
    NamesAreNames(full);
    match e.node
    case File(c) =>
      NamesAreNames(c);
    case Dir(es) =>
      VisitedAreNames(full, e.node, |es|);
  }

  /** Everything the walk registers is a placeholder name. */
  lemma {:induction false} VisitedAreNames(rootDir: string, dir: Node, n: nat)
    requires dir.Dir? && n <= |dir.entries|
    ensures forall x :: x in Visited(rootDir, dir, n) ==> IsName(x)
    decreases dir, n
  {
    if n > 0 {
      VisitedAreNames(rootDir, dir, n - 1);
      EntryVisitedAreNames(rootDir, dir.entries[n - 1]);
    }
  }
}
