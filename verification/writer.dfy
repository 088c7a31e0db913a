/** `writeStructureToFilesystem`: the generated object is written into the
    generation directory, entry by entry: a string becomes a file, an object
    becomes a directory (created unless it exists) whose entries are
    written below it. The file system is left abstract: the writer yields
    the actions in the order it performs them. */
module Writer {
  import opened Tree
  import opened Parser

  /** `config.generationDir`. */
  const GenerationDir: string := "./generated"

  datatype Action = MakeDir(path: string) | WriteFile(path: string, content: string)

  /** `path` is spelled as the directory `root` followed by a slash. This is
      a prefix of the string only: a `/` or `..` in the rest of the path is
      not resolved. */
  predicate StartsWithDir(path: string, root: string) {
    |root| < |path| && path[..|root|] == root && path[|root|] == '/'
  }

  /** The files of a directory's first `n` entries, written below
      `rootDir`: (path, content) pairs in the order of a depth-first walk,
      each path being `rootDir` followed by the entry names down to the
      file. */
  function Files(rootDir: string, dir: Node, n: nat): seq<(string, string)>
    requires dir.Dir? && n <= |dir.entries|
    decreases dir, n
  {
    if n == 0 then [] else Files(rootDir, dir, n - 1) + EntryFiles(rootDir, dir.entries[n - 1])
  }

  /** The files of one entry written below `rootDir`. */
  function EntryFiles(rootDir: string, e: Entry): seq<(string, string)>
    decreases e.node, if e.node.Dir? then |e.node.entries| + 2 else 1
  {
    match e.node
    case File(c) => [(FullPath(rootDir, e.name), c)]
    case Dir(es) => Files(FullPath(rootDir, e.name), e.node, |es|)
  }

  /** The files a list of actions writes, in the order it writes them. */
  function Written(a: seq<Action>): seq<(string, string)> {
    if |a| == 0 then []
    else
      var last := a[|a| - 1];
      Written(a[..|a| - 1]) + if last.WriteFile? then [(last.path, last.content)] else []
  }

  lemma {:induction false} WrittenAppend(a: seq<Action>, b: seq<Action>)
    ensures Written(a + b) == Written(a) + Written(b)
    decreases |b|
  {
    if |b| == 0 {
      assert a + b == a;
    } else {
      var last := b[|b| - 1];
      var one := if last.WriteFile? then [(last.path, last.content)] else [];
      assert (a + b)[..|a + b| - 1] == a + b[..|b| - 1];
      assert (a + b)[|a + b| - 1] == last;
      WrittenAppend(a, b[..|b| - 1]);
      assert Written(a) + Written(b[..|b| - 1]) + one == Written(a) + (Written(b[..|b| - 1]) + one);
    }
  }

  /** The actions for one entry written below `rootDir`. */
  function WriteEntry(rootDir: string, e: Entry): (r: seq<Action>)
    ensures |r| > 0
    ensures forall k :: 0 <= k < |r| ==> StartsWithDir(r[k].path, rootDir)
    ensures e.node.File? ==> r == [WriteFile(FullPath(rootDir, e.name), e.node.content)]
    ensures e.node.Dir? ==> r[0] == MakeDir(FullPath(rootDir, e.name))
    ensures e.node.Dir? ==> forall k :: 1 <= k < |r| ==> StartsWithDir(r[k].path, FullPath(rootDir, e.name))
    ensures Written(r) == EntryFiles(rootDir, e)
    decreases e.node, if e.node.Dir? then |e.node.entries| + 1 else 0
  {
    var path := FullPath(rootDir, e.name);
    match e.node
    case File(c) =>
      assert Written([WriteFile(path, c)]) == Written([]) + [(path, c)];
      [WriteFile(path, c)]
    case Dir(es) =>
      var inner := WriteAll(path, e.node, |es|);
      forall k | 0 <= k < |inner|
        ensures StartsWithDir(inner[k].path, rootDir)
      {
        StartsWithDirTrans(inner[k].path, path, rootDir);
      }
      WrittenAppend([MakeDir(path)], inner);
      assert Written([MakeDir(path)]) == Written([]) + [];
      assert [] + Written(inner) == Written(inner);
      [MakeDir(path)] + inner
  }

  /** The actions for the first `n` entries of `dir`, in entry order: every
      path starts with `rootDir`, and the files written are those of the
      tree, each once, at its path, with its content, in walk order. */
  function WriteAll(rootDir: string, dir: Node, n: nat): (r: seq<Action>)
    requires dir.Dir? && n <= |dir.entries|
    ensures forall k :: 0 <= k < |r| ==> StartsWithDir(r[k].path, rootDir)
    ensures Written(r) == Files(rootDir, dir, n)
    decreases dir, n
  {
    if n == 0 then []
    else
      var before := WriteAll(rootDir, dir, n - 1);
      var last := WriteEntry(rootDir, dir.entries[n - 1]);
      WrittenAppend(before, last);
      before + last
  }

  /** A path that starts with a directory that starts with `root` starts
      with `root`. */
  lemma StartsWithDirTrans(p: string, q: string, root: string)
    requires StartsWithDir(p, q) && StartsWithDir(q, root)
    ensures StartsWithDir(p, root)
  {
    assert p[..|root|] == p[..|q|][..|root|];
    assert p[|root|] == p[..|q|][|root|];
  }

  /** `writeStructureToFilesystem(finalStructure, config.generationDir)`. */
  function WriteTree(tree: Node): (r: seq<Action>)
    requires tree.Dir?
    ensures forall k :: 0 <= k < |r| ==> StartsWithDir(r[k].path, GenerationDir)
    ensures Written(r) == Files(GenerationDir, tree, |tree.entries|)
  {
    WriteAll(GenerationDir, tree, |tree.entries|)
  }
}
