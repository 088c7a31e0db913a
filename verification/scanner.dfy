/** The placeholder scanner: the global regular expression built from the
    delimiter pair, `{{([^({{)(}})]*)}}`, run left to right over a string.

    The body is a character class, so it excludes single characters, not the
    delimiter strings: a body is any run of characters other than `(`, `{`,
    `)` and `}`, possibly empty. */
module Scanner {
  import opened Outcomes

  const Start: string := "{{"
  const End: string := "}}"

  /** A character the body class `[^(<start>)(<end>)]` admits. */
  predicate IsBodyChar(c: char) {
    c != '(' && c != '{' && c != ')' && c != '}'
  }

  /** A string made only of body characters: what a placeholder name can be. */
  predicate IsName(name: string) {
    forall k :: 0 <= k < |name| ==> IsBodyChar(name[k])
  }

  /** The language of the regular expression: start delimiter, a run of body
      characters, end delimiter. */
  predicate IsToken(t: string) {
    && |t| >= |Start| + |End|
    && t[..|Start|] == Start
    && t[|t| - |End|..] == End
    && forall k :: |Start| <= k < |t| - |End| ==> IsBodyChar(t[k])
  }

  /** The placeholder name of a matched token: the token with `start.length`
      characters dropped in front and `end.length` at the back. */
  function Body(t: string): string
    requires |t| >= |Start| + |End|
  {
    t[|Start|..|t| - |End|]
  }

  /** The body class is the negation of the characters written between its
      brackets: the delimiters and the parentheses around them. */
  lemma BodyClassText(c: char)
    ensures IsBodyChar(c) <==> c !in "(" + Start + ")(" + End + ")"
  {
    var w := "(" + Start + ")(" + End + ")";
    assert w == ['(', '{', '{', ')', '(', '}', '}', ')'];
    if c in w {
      var k :| 0 <= k < |w| && w[k] == c;
      assert !IsBodyChar(c);
    } else {
      assert w[0] != c && w[1] != c && w[3] != c && w[5] != c;
    }
  }

  /** Length of the maximal run of body characters beginning at `j` (the
      greedy `*`; no shorter run can be followed by the end delimiter). */
  function RunLength(s: string, j: nat): (n: nat)
    requires j <= |s|
    ensures j + n <= |s|
    ensures forall k :: j <= k < j + n ==> IsBodyChar(s[k])
    ensures j + n == |s| || !IsBodyChar(s[j + n])
    decreases |s| - j
  {
    if j == |s| || !IsBodyChar(s[j]) then 0 else 1 + RunLength(s, j + 1)
  }

  /** A match of length `n` starts at `i`: `{{`, body characters, `}}`. */
  predicate TokenAt(s: string, i: nat, n: nat) {
    && i + n <= |s|
    && n >= |Start| + |End|
    && s[i] == '{' && s[i + 1] == '{'
    && s[i + n - 2] == '}' && s[i + n - 1] == '}'
    && forall k :: i + 2 <= k < i + n - 2 ==> IsBodyChar(s[k])
  }

  /** Length of the token that starts at position `i`, or 0 when no match
      starts there. */
  function TokenLength(s: string, i: nat): (n: nat)
    requires i <= |s|
    ensures i + n <= |s|
    ensures n > 0 ==> TokenAt(s, i, n)
  {
    if i + 2 <= |s| && s[i] == '{' && s[i + 1] == '{' then
      var j := i + 2 + RunLength(s, i + 2);
      if j + 2 <= |s| && s[j] == '}' && s[j + 1] == '}' then j + 2 - i else 0
    else 0
  }

  /** `TokenAt` is the regular language read at a position of a string. */
  lemma TokenAtIsToken(s: string, i: nat, n: nat)
    requires i + n <= |s|
    ensures TokenAt(s, i, n) <==> IsToken(s[i..i + n])
  {
    var t := s[i..i + n];
    if n >= 4 {
      assert t[..2] == Start <==> (s[i] == '{' && s[i + 1] == '{') by {
        assert t[..2][0] == s[i] && t[..2][1] == s[i + 1];
      }
      assert t[n - 2..] == End <==> (s[i + n - 2] == '}' && s[i + n - 1] == '}') by {
        assert t[n - 2..][0] == s[i + n - 2] && t[n - 2..][1] == s[i + n - 1];
      }
      assert forall k :: 2 <= k < n - 2 ==> t[k] == s[i + k];
      if IsToken(t) {
        forall k | i + 2 <= k < i + n - 2
          ensures IsBodyChar(s[k])
        {
          assert t[k - i] == s[k];
        }
      }
    }
  }

  /** The match found at `i` is the only token starting there: no token of
      any other length starts at `i`, and none at all when the length is 0. */
  lemma TokenLengthExact(s: string, i: nat, m: nat)
    requires i + m <= |s|
    ensures TokenAt(s, i, m) <==> (m == TokenLength(s, i) && m > 0)
  {
    if TokenAt(s, i, m) {
      var r := RunLength(s, i + 2);
      assert !IsBodyChar(s[i + m - 2]);
      assert r <= m - 4;
      assert i + 2 + r < |s|;
      assert !IsBodyChar(s[i + 2 + r]);
      assert r >= m - 4;
    }
  }

  /** Two matches never overlap: inside a match no other match can start. */
  lemma NoOverlap(s: string, p: nat, q: nat)
    requires p <= |s| && TokenLength(s, p) > 0
    requires p < q < p + TokenLength(s, p)
    ensures TokenLength(s, q) == 0
  {
    var n := TokenLength(s, p);
    if q == p + 1 {
      assert s[q + 1] == '}' || IsBodyChar(s[q + 1]);
      assert s[q + 1] != '{';
    } else {
      assert s[q] == '}' || IsBodyChar(s[q]);
      assert s[q] != '{';
    }
  }

  /** Scanning a suffix: whether a match starts at a position, and how long
      it is, depends only on the text from that position on. */
  lemma RunLengthShift(a: string, b: string, j: nat)
    requires j <= |b|
    ensures RunLength(a + b, |a| + j) == RunLength(b, j)
    decreases |b| - j
  {
    if j < |b| {
      assert (a + b)[|a| + j] == b[j];
      RunLengthShift(a, b, j + 1);
    }
  }

  lemma TokenLengthShift(a: string, b: string, q: nat)
    requires q <= |b|
    ensures TokenLength(a + b, |a| + q) == TokenLength(b, q)
  {
    if q + 2 <= |b| {
      RunLengthShift(a, b, q + 2);
      var j := q + 2 + RunLength(b, q + 2);
      if j + 2 <= |b| {
        assert (a + b)[|a| + j] == b[j] && (a + b)[|a| + j + 1] == b[j + 1];
      }
      assert (a + b)[|a| + q] == b[q] && (a + b)[|a| + q + 1] == b[q + 1];
    }
  }

  /** The name a match at `i` of length `n` carries. */
  function NameAt(s: string, i: nat, n: nat): string
    requires i + n <= |s| && n >= |Start| + |End|
  {
    s[i + 2..i + n - 2]
  }

  lemma NameAtShift(a: string, b: string, q: nat, n: nat)
    requires q + n <= |b| && n >= 4
    ensures NameAt(a + b, |a| + q, n) == NameAt(b, q, n)
  {
    assert (a + b)[|a| + q + 2..|a| + q + n - 2] == b[q + 2..q + n - 2];
  }

  /** One step of the scan: a character kept as it is, or a matched
      placeholder with its name. */
  datatype Piece = Text(c: char) | Hole(name: string)

  /** The source text a piece stands for. */
  function PieceText(p: Piece): string {
    match p
    case Text(c) => [c]
    case Hole(name) => Start + name + End
  }

  function Render(ps: seq<Piece>): string {
    if |ps| == 0 then [] else PieceText(ps[0]) + Render(ps[1..])
  }

  function HoleNames(ps: seq<Piece>): seq<string> {
    if |ps| == 0 then []
    else (if ps[0].Hole? then [ps[0].name] else []) + HoleNames(ps[1..])
  }

  lemma RenderCons(p: Piece, ps: seq<Piece>)
    ensures Render([p] + ps) == PieceText(p) + Render(ps)
    ensures HoleNames([p] + ps) == (if p.Hole? then [p.name] else []) + HoleNames(ps)
  {
    assert ([p] + ps)[1..] == ps;
  }

  /** A match at `i` spells `{{`, its name, `}}`. */
  lemma TokenSplit(s: string, i: nat, n: nat)
    requires TokenAt(s, i, n)
    ensures s[i..] == Start + NameAt(s, i, n) + End + s[i + n..]
    ensures IsName(NameAt(s, i, n))
  {
    assert s[i..] == s[i..i + 2] + s[i + 2..i + n - 2] + s[i + n - 2..i + n] + s[i + n..];
    assert s[i..i + 2] == Start;
    assert s[i + n - 2..i + n] == End;
    var name := NameAt(s, i, n);
    forall k | 0 <= k < |name|
      ensures IsBodyChar(name[k])
    {
      assert name[k] == s[i + 2 + k];
    }
  }

  /** The global scan from position `i` on: at each position either a match
      starts (consume it and continue after its end delimiter) or not (keep
      the character and move on by one). Every hole holds a name of body
      characters only. */
  function ScanFrom(s: string, i: nat): (ps: seq<Piece>)
    requires i <= |s|
    ensures forall k :: 0 <= k < |ps| && ps[k].Hole? ==> IsName(ps[k].name)
    decreases |s| - i
  {
    if i == |s| then []
    else
      var n := TokenLength(s, i);
      if n > 0 then
        TokenSplit(s, i, n);
        [Hole(NameAt(s, i, n))] + ScanFrom(s, i + n)
      else
        [Text(s[i])] + ScanFrom(s, i + 1)
  }

  function Scan(s: string): seq<Piece> {
    ScanFrom(s, 0)
  }

  /** One scan step from `i` takes the piece it produces off the front of
      the text: the piece spells what it consumes. */
  lemma StepSplit(s: string, i: nat)
    requires i < |s|
    ensures TokenLength(s, i) > 0 ==>
      s[i..] == PieceText(Hole(NameAt(s, i, TokenLength(s, i)))) + s[i + TokenLength(s, i)..]
    ensures TokenLength(s, i) == 0 ==> s[i..] == PieceText(Text(s[i])) + s[i + 1..]
  {
    var n := TokenLength(s, i);
    if n > 0 {
      TokenSplit(s, i, n);
    } else {
      assert s[i..] == [s[i]] + s[i + 1..];
    }
  }

  /** The scan loses nothing: its pieces spell out the scanned text, so the
      characters kept as text are exactly the unmatched ones, in order. */
  lemma {:induction false} ScanFromRenders(s: string, i: nat)
    requires i <= |s|
    ensures Render(ScanFrom(s, i)) == s[i..]
    decreases |s| - i
  {
    if i < |s| {
      var n := TokenLength(s, i);
      var p := if n > 0 then Hole(NameAt(s, i, n)) else Text(s[i]);
      var next := if n > 0 then i + n else i + 1;
      var rest := ScanFrom(s, next);
      assert ScanFrom(s, i) == [p] + rest;
      RenderCons(p, rest);
      ScanFromRenders(s, next);
      StepSplit(s, i);
    }
  }

  lemma ScanRenders(s: string)
    ensures Render(Scan(s)) == s
  {
    ScanFromRenders(s, 0);
  }

  /** The names the global scan from `i` finds, left to right, repeats
      included: what `source.match(placeholderRegex)` yields once each token
      is sliced down to its name. */
  function NamesFrom(s: string, i: nat): seq<string>
    requires i <= |s|
    decreases |s| - i
  {
    if i == |s| then []
    else
      var n := TokenLength(s, i);
      if n > 0 then [NameAt(s, i, n)] + NamesFrom(s, i + n) else NamesFrom(s, i + 1)
  }

  function Names(s: string): seq<string> {
    NamesFrom(s, 0)
  }

  /** The holes of the piece scan are exactly the names the scan finds. */
  lemma {:induction false} HoleNamesOfScanFrom(s: string, i: nat)
    requires i <= |s|
    ensures HoleNames(ScanFrom(s, i)) == NamesFrom(s, i)
    decreases |s| - i
  {
    if i < |s| {
      var n := TokenLength(s, i);
      var p := if n > 0 then Hole(NameAt(s, i, n)) else Text(s[i]);
      var next := if n > 0 then i + n else i + 1;
      assert ScanFrom(s, i) == [p] + ScanFrom(s, next);
      RenderCons(p, ScanFrom(s, next));
      HoleNamesOfScanFrom(s, next);
      assert NamesFrom(s, i) == (if p.Hole? then [p.name] else []) + NamesFrom(s, next);
    }
  }

  lemma HoleNamesOfScan(s: string)
    ensures HoleNames(Scan(s)) == Names(s)
  {
    assert Scan(s) == ScanFrom(s, 0);
    HoleNamesOfScanFrom(s, 0);
  }

  lemma NameMakesToken(name: string)
    requires IsName(name)
    ensures IsToken(Start + name + End)
    ensures Body(Start + name + End) == name
  {
    var t := Start + name + End;
    assert t[..2] == Start;
    assert t[|t| - 2..] == End;
    assert forall k :: 2 <= k < |t| - 2 ==> t[k] == name[k - 2];
  }

  /** The body run of a delimited name covers the name and stops at the
      end delimiter. */
  lemma {:induction false} RunOverName(name: string, j: nat)
    requires IsName(name) && j <= |name|
    ensures RunLength(Start + name + End, 2 + j) == |name| - j
    decreases |name| - j
  {
    var s := Start + name + End;
    if j < |name| {
      assert s[2 + j] == name[j];
      RunOverName(name, j + 1);
    } else {
      assert s[2 + j] == '}';
    }
  }

  /** A name between the delimiters scans as one hole holding that name. */
  lemma ScanToken(name: string)
    requires IsName(name)
    ensures Scan(Start + name + End) == [Hole(name)]
  {
    var s := Start + name + End;
    RunOverName(name, 0);
    assert s[0] == '{' && s[1] == '{';
    assert s[|s| - 2] == '}' && s[|s| - 1] == '}';
    assert 2 + RunLength(s, 2) == |s| - 2;
    assert TokenLength(s, 0) == |s|;
    assert NameAt(s, 0, |s|) == name;
    assert ScanFrom(s, |s|) == [];
    assert ScanFrom(s, 0) == [Hole(name)] + ScanFrom(s, |s|);
  }

  lemma HoleNamesAreNames(ps: seq<Piece>)
    requires forall k :: 0 <= k < |ps| && ps[k].Hole? ==> IsName(ps[k].name)
    ensures forall k :: 0 <= k < |HoleNames(ps)| ==> IsName(HoleNames(ps)[k])
  {
    if |ps| > 0 {
      HoleNamesAreNames(ps[1..]);
    }
  }

  /** Every scanned name is made of body characters only, so delimiting it
      again gives back a token. */
  lemma NamesAreNames(s: string)
    ensures forall k :: 0 <= k < |Names(s)| ==> IsName(Names(s)[k])
    ensures forall k :: 0 <= k < |Names(s)| ==>
      IsToken(Start + Names(s)[k] + End) && Body(Start + Names(s)[k] + End) == Names(s)[k]
  {
    HoleNamesAreNames(Scan(s));
    HoleNamesOfScan(s);
    forall k | 0 <= k < |Names(s)|
      ensures IsToken(Start + Names(s)[k] + End) && Body(Start + Names(s)[k] + End) == Names(s)[k]
    {
      NameMakesToken(Names(s)[k]);
    }
  }

  /** What `source.match(placeholderRegex)` returns: the matched token texts
      in order, or null (`None`) when nothing matches. */
  function Match(s: string): (r: Option<seq<string>>)
    ensures r.None? <==> Names(s) == []
    ensures r.Some? ==> |r.value| == |Names(s)|
    ensures r.Some? ==> forall k :: 0 <= k < |r.value| ==>
      IsToken(r.value[k]) && Body(r.value[k]) == Names(s)[k]
  {
    var names := Names(s);
    if |names| == 0 then None
    else
      NamesAreNames(s);
      Some(seq(|names|, k requires 0 <= k < |names| => Start + names[k] + End))
  }

  /** A match carrying `name` starts at position `q`. */
  ghost predicate MatchNamed(s: string, q: nat, name: string) {
    q <= |s| && TokenLength(s, q) > 0 && NameAt(s, q, TokenLength(s, q)) == name
  }

  /** The scan from `i` yields the name of every match starting at or
      after `i` (the lemma returns its index among the names): since matches
      cannot overlap, the scan never jumps over one. */
  lemma {:induction false} NamesFromFindsMatch(s: string, i: nat, q: nat) returns (k: nat)
    requires i <= q <= |s| && TokenLength(s, q) > 0
    ensures k < |NamesFrom(s, i)|
    ensures NamesFrom(s, i)[k] == NameAt(s, q, TokenLength(s, q))
    decreases |s| - i
  {
    var n := TokenLength(s, i);
    if q == i {
      k := 0;
    } else if n > 0 {
      if q < i + n {
        NoOverlap(s, i, q);
      }
      var k' := NamesFromFindsMatch(s, i + n, q);
      k := k' + 1;
    } else {
      k := NamesFromFindsMatch(s, i + 1, q);
    }
  }

  /** Every name the scan from `i` yields is carried by a match starting at
      or after `i`; the lemma returns where. */
  lemma {:induction false} NamesFromFoundAt(s: string, i: nat, k: nat) returns (q: nat)
    requires i <= |s| && k < |NamesFrom(s, i)|
    ensures i <= q <= |s| && TokenLength(s, q) > 0
    ensures NameAt(s, q, TokenLength(s, q)) == NamesFrom(s, i)[k]
    decreases |s| - i
  {
    if i == |s| {
      assert false;
    } else {
      var n := TokenLength(s, i);
      if n > 0 && k == 0 {
        q := i;
      } else if n > 0 {
        q := NamesFromFoundAt(s, i + n, k - 1);
      } else {
        q := NamesFromFoundAt(s, i + 1, k);
      }
    }
  }

  /** A name occurs in the scan exactly when some match carries it. */
  lemma ScanFinds(s: string, name: string)
    ensures name in Names(s) <==> exists q :: MatchNamed(s, q, name)
  {
    if name in Names(s) {
      var k :| 0 <= k < |Names(s)| && Names(s)[k] == name;
      var q := NamesFromFoundAt(s, 0, k);
      assert MatchNamed(s, q, name);
    }
    if exists q :: MatchNamed(s, q, name) {
      var q :| MatchNamed(s, q, name);
      var k := NamesFromFindsMatch(s, 0, q);
    }
  }

  /** Every placeholder of a suffix is a placeholder of the whole string; in
      particular a path registers every placeholder of its last component. */
  lemma NamesOfSuffix(a: string, b: string)
    ensures forall name :: name in Names(b) ==> name in Names(a + b)
  {
    forall name | name in Names(b)
      ensures name in Names(a + b)
    {
      var k :| 0 <= k < |Names(b)| && Names(b)[k] == name;
      var q := NamesFromFoundAt(b, 0, k);
      TokenLengthShift(a, b, q);
      NameAtShift(a, b, q, TokenLength(b, q));
      var k' := NamesFromFindsMatch(a + b, 0, |a| + q);
    }
  }

  /** No name is found exactly when no token occurs anywhere in the text. */
  lemma NoNamesIffNoToken(s: string)
    ensures Names(s) == [] <==>
      forall i, j :: 0 <= i <= j <= |s| ==> !IsToken(s[i..j])
  {
    if Names(s) != [] {
      var q := NamesFromFoundAt(s, 0, 0);
      TokenAtIsToken(s, q, TokenLength(s, q));
      assert IsToken(s[q..q + TokenLength(s, q)]);
    } else {
      forall i, j | 0 <= i <= j <= |s|
        ensures !IsToken(s[i..j])
      {
        TokenAtIsToken(s, i, j - i);
        if TokenAt(s, i, j - i) {
          TokenLengthExact(s, i, j - i);
          var k := NamesFromFindsMatch(s, 0, i);
          assert false;
        }
      }
    }
  }
}
