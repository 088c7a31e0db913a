/** The check in `requestValuesFromUser`: one question per registry key, in
    key order; the answers replace the registry, and the first key whose
    answer is empty (falsy) aborts the run. The replies are given as a
    function from the key asked about to the line typed. */
module Values {
  import opened Outcomes
  import opened Registry

  /** The `results` object: each key mapped to the reply to its question. */
  function Answers(keys: Keys, answer: string -> string): (m: map<string, string>)
    ensures forall x :: x in m <==> x in keys
    ensures forall x :: x in m ==> m[x] == answer(x)
    decreases |keys|
  {
    if |keys| == 0 then map[]
    else
      var init := keys[..|keys| - 1];
      var last := keys[|keys| - 1];
      assert forall x :: x in keys <==> x in init || x == last;
      Answers(init, answer)[last := answer(last)]
  }

  /** `key` is the first of `keys` whose value in `m` is empty. */
  ghost predicate FirstEmpty(keys: Keys, m: map<string, string>, key: string) {
    exists k :: 0 <= k < |keys| && keys[k] == key && key in m && m[key] == "" &&
      forall j :: 0 <= j < k ==> keys[j] in m && m[keys[j]] != ""
  }

  /** `key` is the first of `keys` whose reply is empty. */
  ghost predicate FirstUnanswered(keys: Keys, answer: string -> string, key: string) {
    exists k :: 0 <= k < |keys| && keys[k] == key && answer(key) == "" &&
      forall j :: 0 <= j < k ==> answer(keys[j]) != ""
  }

  /** Walks the keys in order and stops at the first empty value. */
  function CheckFilled(keys: Keys, m: map<string, string>): (r: Option<string>)
    requires forall x :: x in keys ==> x in m
    ensures r.None? <==> forall k :: 0 <= k < |keys| ==> m[keys[k]] != ""
    ensures r.Some? ==> FirstEmpty(keys, m, r.value)
  {
    if |keys| == 0 then None
    else if m[keys[0]] == "" then
      assert keys[0] in m;
      Some(keys[0])
    else
      var r := CheckFilled(keys[1..], m);
      assert forall k :: 1 <= k < |keys| ==> keys[k] == keys[1..][k - 1];
      if r.Some? then
        var k :| 0 <= k < |keys[1..]| && keys[1..][k] == r.value && r.value in m && m[r.value] == "" &&
          forall j :: 0 <= j < k ==> keys[1..][j] in m && m[keys[1..][j]] != "";
        assert keys[k + 1] == r.value;
        r
      else r
  }

  /** `requestValuesFromUser`: the values are the answers when every answer
      is non-empty; otherwise the first key with an empty answer is
      reported. */
  function CollectValues(keys: Keys, answer: string -> string): (r: Result<map<string, string>>)
    ensures r.Ok? <==> forall k :: 0 <= k < |keys| ==> answer(keys[k]) != ""
    ensures r.Err? ==> r.error.EmptyValue?
    ensures r.Err? ==> FirstUnanswered(keys, answer, r.error.key)
    ensures r.Ok? ==> forall x :: x in r.value <==> x in keys
    ensures r.Ok? ==> forall x :: x in r.value ==> r.value[x] == answer(x) && r.value[x] != ""
  {
    var m := Answers(keys, answer);
    match CheckFilled(keys, m)
    case Some(key) =>
      var k :| 0 <= k < |keys| && keys[k] == key && key in m && m[key] == "" &&
        forall j :: 0 <= j < k ==> keys[j] in m && m[keys[j]] != "";
      Err(EmptyValue(key))
    case None =>
      assert forall x :: x in m ==> exists k :: 0 <= k < |keys| && keys[k] == x;
      Ok(m)
  }
}
