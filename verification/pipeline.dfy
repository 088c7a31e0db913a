/** The whole run of the tool: choose a template, parse it while
    registering its placeholders, collect one non-empty value per
    placeholder, and rebuild the tree with the values filled in. The
    template root is given as its listing; the replies are the line typed
    for the template choice and a function from placeholder name to the
    line typed for it. */
module Pipeline {
  import opened Outcomes
  import opened Scanner
  import opened Substitution
  import opened Tree
  import opened Parser
  import opened Values
  import opened Generator
  import opened Selection
  import opened Writer

  /** The directory `./templates/<name>`: in a listing the names are
      distinct, so a listed directory name leads to that directory. */
  function Template(listing: seq<Entry>, name: string): (r: Node)
    requires UniqueKeys(listing)
    requires exists i :: 0 <= i < |listing| && listing[i].name == name && listing[i].node.Dir?
    ensures r.Dir?
    ensures forall i :: 0 <= i < |listing| && listing[i].name == name ==> r == listing[i].node
  {
    LookupUnique(listing, name);
    Lookup(listing, name).value
  }

  /** The placeholders registered for the chosen template. */
  function TemplateKeys(listing: seq<Entry>, name: string): seq<string>
    requires UniqueKeys(listing)
    requires exists i :: 0 <= i < |listing| && listing[i].name == name && listing[i].node.Dir?
  {
    ParseTemplate(name, Template(listing, name)).keys
  }

  /** `requestTemplateFromUser`, `requestValuesFromUser` and `saveChanges`
      chained. The values collected cover every placeholder the tree holds,
      so the run never stops for a missing value: it fails only for want of
      templates, for a bad choice, or for an empty answer. */
  function Run(listing: seq<Entry>, choice: string, answer: string -> string): (r: Result<Node>)
    requires UniqueKeys(listing)
    ensures r.Err? ==> r.error.NoTemplates? || r.error.TemplateNotFound? || r.error.EmptyValue?
    ensures r.Ok? <==> (Select(listing, choice).Ok? &&
      forall x :: x in TemplateKeys(listing, Select(listing, choice).value) ==> answer(x) != "")
    ensures r.Ok? ==> r.value.Dir?
  {
    var chosen := Select(listing, choice);
    if chosen.Err? then Err(chosen.error)
    else
      var parsed := ParseTemplate(chosen.value, Template(listing, chosen.value));
      var collected := CollectValues(parsed.keys, answer);
      if collected.Err? then
        assert !forall k :: 0 <= k < |parsed.keys| ==> answer(parsed.keys[k]) != "";
        Err(collected.error)
      else
        var tree := Dir(parsed.entries);
        WithinDefined(NodeNames(tree), parsed.keys, collected.value);
        Generate(tree, collected.value)
  }

  /** For a template whose directories list distinct names, as a file
      system's do, the tree generated is the template itself with the
      collected values filled in. */
  lemma RunGeneratesTemplate(listing: seq<Entry>, choice: string, answer: string -> string)
    requires UniqueKeys(listing) && Run(listing, choice, answer).Ok?
    requires WellFormed(Template(listing, Select(listing, choice).value))
    ensures CollectValues(TemplateKeys(listing, Select(listing, choice).value), answer).Ok?
    ensures Run(listing, choice, answer) ==
      Generate(Template(listing, Select(listing, choice).value),
               CollectValues(TemplateKeys(listing, Select(listing, choice).value), answer).value)
  {
  }

  /** The run followed by `saveChanges`' write-out: actions are produced
      only when the whole tree was generated, every path starts with the
      generation directory, and the files written are those of the
      generated tree. */
  function Session(listing: seq<Entry>, choice: string, answer: string -> string): (r: Result<seq<Action>>)
    requires UniqueKeys(listing)
    ensures r.Ok? <==> Run(listing, choice, answer).Ok?
    ensures r.Err? ==> r.error.NoTemplates? || r.error.TemplateNotFound? || r.error.EmptyValue?
    ensures r.Ok? ==> forall k :: 0 <= k < |r.value| ==> StartsWithDir(r.value[k].path, GenerationDir)
    ensures r.Ok? ==> Written(r.value) == Files(GenerationDir, Run(listing, choice, answer).value, |Run(listing, choice, answer).value.entries|)
  {
    match Run(listing, choice, answer)
    case Err(f) => Err(f)
    case Ok(tree) => Ok(WriteTree(tree))
  }

  /** Names among the keys of a valuation all have a value. */
  lemma WithinDefined(names: seq<string>, keys: seq<string>, values: map<string, string>)
    requires Within(names, keys) && forall x :: x in keys ==> x in values
    ensures AllDefined(names, values)
  {
    forall k | 0 <= k < |names|
      ensures names[k] in values
    {
      assert names[k] in names;
    }
  }
}
