/** `requestTemplateFromUser`: the templates are the sub-directories of the
    template root, in listing order; the reply to the prompt is used as a
    property key of that array, so only the canonical decimal spelling of
    an existing index selects a template. */
module Selection {
  import opened Outcomes
  import opened Tree

  /** Array indices are the integers below 2^32 - 1. */
  const MaxIndex: nat := 0xFFFF_FFFF

  predicate IsDigit(c: char) {
    '0' <= c <= '9'
  }

  predicate AllDigits(s: string) {
    forall k :: 0 <= k < |s| ==> IsDigit(s[k])
  }

  /** A non-empty run of digits without a leading zero, or "0" itself: the
      form `String(n)` gives a natural number. */
  predicate Canonical(s: string) {
    |s| > 0 && AllDigits(s) && (s[0] != '0' || |s| == 1)
  }

  function DigitChar(d: nat): (c: char)
    requires d < 10
    ensures IsDigit(c)
  {
    (48 + d) as char
  }

  function DigitValue(c: char): (d: nat)
    requires IsDigit(c)
    ensures d < 10 && DigitChar(d) == c
  {
    c as int - 48
  }

  /** The number a run of decimal digits spells. */
  function DecimalValue(s: string): nat
    requires AllDigits(s)
    decreases |s|
  {
    if |s| == 0 then 0
    else DecimalValue(s[..|s| - 1]) * 10 + DigitValue(s[|s| - 1])
  }

  /** `String(n)` for a natural number. */
  function DecimalString(n: nat): (s: string)
    ensures Canonical(s)
    ensures DecimalValue(s) == n
    decreases n
  {
    if n < 10 then [DigitChar(n)]
    else
      var s := DecimalString(n / 10) + [DigitChar(n % 10)];
      assert s[..|s| - 1] == DecimalString(n / 10);
      s
  }

  /** The index a property key denotes on an array, if any: a key is an
      array index exactly when it is the canonical spelling of a number
      below 2^32 - 1. */
  function ArrayIndex(s: string): (r: Option<nat>)
    ensures r.Some? ==> r.value < MaxIndex && DecimalString(r.value) == s
    ensures forall n: nat :: n < MaxIndex ==> (s == DecimalString(n) <==> r == Some(n))
  {
    if Canonical(s) && DecimalValue(s) < MaxIndex then
      CanonicalRoundTrip(s);
      Some(DecimalValue(s))
    else None
  }

  /** A canonical digit string is the spelling of the number it denotes. */
  lemma {:induction false} CanonicalRoundTrip(s: string)
    requires Canonical(s)
    ensures DecimalString(DecimalValue(s)) == s
    decreases |s|
  {
    if |s| > 1 {
      var t := s[..|s| - 1];
      assert t[0] == s[0];
      CanonicalRoundTrip(t);
      LeadingDigitPositive(t);
      var n := DecimalValue(s);
      var d := DigitValue(s[|s| - 1]);
      assert n / 10 == DecimalValue(t) && n % 10 == d;
      assert s == t + [s[|s| - 1]];
    }
  }

  /** A digit string that does not start with zero denotes a positive
      number. */
  lemma {:induction false} LeadingDigitPositive(s: string)
    requires AllDigits(s) && |s| > 0 && s[0] != '0'
    ensures DecimalValue(s) > 0
    decreases |s|
  {
    if |s| > 1 {
      var t := s[..|s| - 1];
      assert t[0] == s[0];
      LeadingDigitPositive(t);
    }
  }

  /** `readAvailableTemplates`: the names of the directories of the listing,
      in listing order. */
  function Available(listing: seq<Entry>): (r: seq<string>)
    ensures |r| <= |listing|
    ensures forall x :: x in r <==> exists i :: 0 <= i < |listing| && listing[i].name == x && listing[i].node.Dir?
    decreases |listing|
  {
    if |listing| == 0 then []
    else
      var rest := Available(listing[1..]);
      assert forall i :: 1 <= i < |listing| ==> listing[i] == listing[1..][i - 1];
      if listing[0].node.Dir? then [listing[0].name] + rest else rest
  }

  /** Filtering a listing in two parts filters each part and keeps their
      order. */
  lemma {:induction false} AvailableAppend(a: seq<Entry>, b: seq<Entry>)
    ensures Available(a + b) == Available(a) + Available(b)
    decreases |a|
  {
    if |a| > 0 {
      var head := if a[0].node.Dir? then [a[0].name] else [];
      assert (a + b)[1..] == a[1..] + b;
      assert (a + b)[0] == a[0];
      assert Available(a + b) == head + Available(a[1..] + b);
      assert Available(a) == head + Available(a[1..]);
      AvailableAppend(a[1..], b);
      assert head + (Available(a[1..]) + Available(b)) == (head + Available(a[1..])) + Available(b);
    } else {
      assert a + b == b;
    }
  }

  /** The reply spells index `i` of the templates, and the name there is
      non-empty. */
  ghost predicate Picks(listing: seq<Entry>, answer: string, i: int) {
    0 <= i < |Available(listing)| && i < MaxIndex &&
    answer == DecimalString(i) && Available(listing)[i] != ""
  }

  /** The template named by the reply: `availableTemplates[answer]`, which
      must be a non-empty name. With no templates the run stops before
      asking. */
  function Select(listing: seq<Entry>, answer: string): (r: Result<string>)
    ensures r == Err(NoTemplates) <==> |Available(listing)| == 0
    ensures r.Err? ==> r.error == NoTemplates || r.error == TemplateNotFound
    ensures r.Ok? <==> exists i :: Picks(listing, answer, i)
    ensures r.Ok? ==> exists i :: Picks(listing, answer, i) && r.value == Available(listing)[i]
    ensures r.Ok? ==> exists i :: 0 <= i < |listing| && listing[i].name == r.value && listing[i].node.Dir?
  {
    var templates := Available(listing);
    if |templates| == 0 then Err(NoTemplates)
    else
      match ArrayIndex(answer)
      case None =>
        assert forall i :: 0 <= i < |templates| && i < MaxIndex ==> answer != DecimalString(i);
        Err(TemplateNotFound)
      case Some(i) =>
        if i < |templates| && templates[i] != "" then
          assert templates[i] in templates;
          assert Picks(listing, answer, i);
          Ok(templates[i])
        else Err(TemplateNotFound)
  }

  /** The top of the range the source's prompt advertises: the number of
      templates. */
  function TopAsWritten(count: nat): nat {
    count
  }

  /** The question as the source asks it, `Select a template (0-top): `. */
  function PromptAsWritten(count: nat): string {
    "Select a template (0-" + DecimalString(TopAsWritten(count)) + "): "
  }

  /** The top of the range the source's prompt advertises is never
      accepted. */
  lemma PromptAsWrittenOffersRejected(listing: seq<Entry>)
    requires |Available(listing)| > 0
    ensures Select(listing, DecimalString(TopAsWritten(|Available(listing)|))) == Err(TemplateNotFound)
  {
    var n := |Available(listing)|;
    match ArrayIndex(DecimalString(n))
    case None =>
    case Some(m) =>
      assert DecimalValue(DecimalString(m)) == DecimalValue(DecimalString(n));
  }

  /** A reply spelling an index whose template name is non-empty selects
      that template. */
  lemma SelectIndex(listing: seq<Entry>, i: nat)
    requires i < |Available(listing)| && i < MaxIndex && Available(listing)[i] != ""
    ensures Select(listing, DecimalString(i)) == Ok(Available(listing)[i])
  {
    assert ArrayIndex(DecimalString(i)) == Some(i);
  }

  /** The top of the range the prompt evidently means: the last index. */
  function Top(count: nat): nat
    requires count > 0
  {
    count - 1
  }

  /** The question with the corrected range. */
  function Prompt(count: nat): string
    requires count > 0
  {
    "Select a template (0-" + DecimalString(Top(count)) + "): "
  }

  /** Every number in the corrected prompt's range selects its template,
      and the number after it does not. An array has fewer than 2^32
      elements. */
  lemma PromptOffersAccepted(listing: seq<Entry>)
    requires 0 < |Available(listing)| <= MaxIndex
    requires forall i :: 0 <= i < |listing| ==> listing[i].name != ""
    ensures forall i: nat :: i <= Top(|Available(listing)|) ==>
      Select(listing, DecimalString(i)) == Ok(Available(listing)[i])
    ensures Select(listing, DecimalString(Top(|Available(listing)|) + 1)).Err?
  {
    var templates := Available(listing);
    forall i: nat | i <= |templates| - 1
      ensures Select(listing, DecimalString(i)) == Ok(templates[i])
    {
      assert templates[i] in templates;
      SelectIndex(listing, i);
    }
    PromptAsWrittenOffersRejected(listing);
  }
}
