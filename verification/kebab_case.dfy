/** `KeyDecodingStrategy.convertFromKebabCase` of the custom-decoding-strategy
    page: "released-status" becomes "releasedStatus". */
module KebabCase {
  import opened Ascii

  /** A component produced by splitting on hyphens: non-empty, hyphen-free. */
  predicate IsPiece(p: string) {
    |p| > 0 && '-' !in p
  }

  predicate AllPieces(ps: seq<string>) {
    forall i :: 0 <= i < |ps| ==> IsPiece(ps[i])
  }

  predicate HasNonHyphen(s: string) {
    exists i :: 0 <= i < |s| && s[i] != '-'
  }

  /** The key with every hyphen deleted. */
  function RemoveHyphens(s: string): (r: string)
    ensures '-' !in r
  {
    if |s| == 0 then ""
    else if s[0] == '-' then RemoveHyphens(s[1..])
    else [s[0]] + RemoveHyphens(s[1..])
  }

  /** The components written one after another with no separator. */
  function Concat(ps: seq<string>): string {
    if |ps| == 0 then "" else ps[0] + Concat(ps[1..])
  }

  /** The components written with a hyphen between neighbours: the kebab-case
      spelling of a list of words. */
  function Join(ps: seq<string>): string {
    if |ps| == 0 then ""
    else if |ps| == 1 then ps[0]
    else ps[0] + "-" + Join(ps[1..])
  }

  /** The length of the longest hyphen-free prefix. */
  function RunLength(s: string): (n: nat)
    ensures n <= |s|
    ensures forall i :: 0 <= i < n ==> s[i] != '-'
    ensures n < |s| ==> s[n] == '-'
  {
    if |s| == 0 || s[0] == '-' then 0 else 1 + RunLength(s[1..])
  }

  lemma {:induction false} RemoveHyphensPrefix(s: string, n: nat)
    requires n <= |s|
    requires forall i :: 0 <= i < n ==> s[i] != '-'
    ensures RemoveHyphens(s) == s[..n] + RemoveHyphens(s[n..])
  {
    if n > 0 {
      RemoveHyphensPrefix(s[1..], n - 1);
      assert s[1..][..n - 1] == s[1..n];
      assert s[1..][n - 1..] == s[n..];
      assert [s[0]] + s[1..n] == s[..n];
    }
  }

  /** `key.split(separator: "-")`: the maximal hyphen-free runs, in order, with
      the empty pieces that leading, trailing and doubled hyphens would make
      omitted. */
  function Split(s: string): (ps: seq<string>)
    ensures AllPieces(ps)
    decreases |s|
  {
    if |s| == 0 then []
    else if s[0] == '-' then Split(s[1..])
    else
      var n := RunLength(s);
      var ps := [s[..n]] + Split(s[n..]);
      assert s[..n][0] == s[0];
      ps
  }

  /** The components, concatenated, are the key with its hyphens deleted. */
  lemma {:induction false} SplitConcat(s: string)
    ensures Concat(Split(s)) == RemoveHyphens(s)
    decreases |s|
  {
    if |s| > 0 {
      if s[0] == '-' {
        SplitConcat(s[1..]);
      } else {
        var n := RunLength(s);
        var ps := Split(s);
        assert ps == [s[..n]] + Split(s[n..]);
        assert ps[1..] == Split(s[n..]);
        SplitConcat(s[n..]);
        RemoveHyphensPrefix(s, n);
      }
    }
  }

  /** A key splits into at least one component exactly when it holds some
      character other than a hyphen. */
  lemma {:induction false} SplitNonEmpty(s: string)
    ensures |Split(s)| > 0 <==> HasNonHyphen(s)
    decreases |s|
  {
    if |s| > 0 {
      if s[0] == '-' {
        SplitNonEmpty(s[1..]);
        if HasNonHyphen(s) {
          var i :| 0 <= i < |s| && s[i] != '-';
          assert s[1..][i - 1] != '-';
        }
        if HasNonHyphen(s[1..]) {
          var i :| 0 <= i < |s[1..]| && s[1..][i] != '-';
          assert s[i + 1] != '-';
        }
      }
    }
  }

  /** A key without hyphens is its own single component. */
  lemma SplitPiece(p: string)
    requires IsPiece(p)
    ensures Split(p) == [p]
  {
    assert p[0] != '-';
    assert RunLength(p) == |p|;
    assert p[..|p|] == p;
  }

  lemma SplitHyphenFree(key: string)
    requires HasNonHyphen(key)
    ensures '-' !in key ==> Split(key) == [key]
  {
    if '-' !in key {
      assert key[0] in key;
      SplitPiece(key);
    }
  }

  lemma RunLengthAfterPiece(p: string, t: string)
    requires IsPiece(p)
    ensures RunLength(p + "-" + t) == |p|
  {
    var s := p + "-" + t;
    assert forall i :: 0 <= i < |p| ==> s[i] == p[i];
    assert s[|p|] == '-';
  }

  /** Splitting a kebab-case join gives back the components joined. */
  lemma {:induction false} SplitJoin(ps: seq<string>)
    requires AllPieces(ps)
    ensures Split(Join(ps)) == ps
  {
    if |ps| == 1 {
      SplitPiece(ps[0]);
    } else if |ps| > 1 {
      var t := Join(ps[1..]);
      var s := ps[0] + "-" + t;
      assert s[0] == ps[0][0];
      assert ps[0][0] in ps[0];
      RunLengthAfterPiece(ps[0], t);
      assert s[..|ps[0]|] == ps[0];
      assert s[|ps[0]|..] == "-" + t;
      assert ("-" + t)[1..] == t;
      SplitJoin(ps[1..]);
      assert [ps[0]] + ps[1..] == ps;
    }
  }

  predicate DoubleHyphenAt(s: string, i: nat)
    requires i + 1 < |s|
  {
    s[i] == '-' && s[i + 1] == '-'
  }

  /** A key in canonical kebab case: no leading, trailing or doubled hyphen. */
  predicate IsKebab(s: string) {
    && (|s| > 0 ==> s[0] != '-' && s[|s| - 1] != '-')
    && forall i :: 0 <= i < |s| - 1 ==> !DoubleHyphenAt(s, i)
  }

  /** What follows the first hyphen of a canonical kebab-case key is again one. */
  lemma KebabTail(s: string, n: nat)
    requires IsKebab(s) && n < |s| && s[n] == '-'
    ensures n + 1 < |s|
    ensures IsKebab(s[n + 1..]) && s[n + 1] != '-'
  {
    var tail := s[n + 1..];
    forall i | 0 <= i < |tail| - 1
      ensures !DoubleHyphenAt(tail, i)
    {
      assert !DoubleHyphenAt(s, n + 1 + i);
    }
    assert !DoubleHyphenAt(s, n);
  }

  lemma SplitAtRun(s: string)
    requires |s| > 0 && s[0] != '-'
    ensures RunLength(s) > 0
    ensures Split(s) == [s[..RunLength(s)]] + Split(s[RunLength(s)..])
  {
  }

  lemma SplitAtHyphen(s: string)
    requires |s| > 0 && s[0] == '-'
    ensures Split(s) == Split(s[1..])
  {
  }

  /** A canonical kebab-case key with a hyphen splits into its first word
      followed by the components of what comes after the first hyphen. */
  lemma SplitKebab(s: string)
    requires IsKebab(s) && |s| > 0 && RunLength(s) < |s|
    ensures RunLength(s) + 1 < |s|
    ensures IsKebab(s[RunLength(s) + 1..]) && HasNonHyphen(s[RunLength(s) + 1..])
    ensures Split(s) == [s[..RunLength(s)]] + Split(s[RunLength(s) + 1..])
  {
    var n := RunLength(s);
    SplitAtRun(s);
    KebabTail(s, n);
    var tail := s[n + 1..];
    assert s[n..][1..] == tail;
    SplitAtHyphen(s[n..]);
    assert tail[0] != '-';
  }

  lemma Recompose(s: string, n: nat)
    requires n < |s| && s[n] == '-'
    ensures s == s[..n] + "-" + s[n + 1..]
  {
  }

  lemma JoinCons(head: string, rest: seq<string>)
    requires |rest| > 0
    ensures Join([head] + rest) == head + "-" + Join(rest)
  {
    assert ([head] + rest)[1..] == rest;
  }

  /** Joining the components of a canonical kebab-case key gives back the key. */
  lemma {:induction false} JoinSplit(s: string)
    requires IsKebab(s)
    ensures Join(Split(s)) == s
    decreases |s|
  {
    if |s| > 0 {
      var n := RunLength(s);
      if n == |s| {
        SplitAtRun(s);
        assert Split(s[n..]) == [];
        assert s[..n] == s;
      } else {
        SplitKebab(s);
        Recompose(s, n);
        var tail := s[n + 1..];
        JoinSplit(tail);
        JoinCons(s[..n], Split(tail));
      }
    }
  }

  predicate IsLetter(c: char) {
    'a' <= c <= 'z' || 'A' <= c <= 'Z'
  }

  /** The ASCII characters Unicode calls case-ignorable (apostrophe, full stop,
      colon, circumflex and grave accent): they neither start nor end a word. */
  predicate CaseIgnorable(c: char) {
    c == '\'' || c == '.' || c == ':' || c == '^' || c == '`'
  }

  /** Position `i` of `p` continues a word: the nearest character before it
      that is not case-ignorable is a letter. */
  predicate InWord(p: string, i: nat)
    requires i <= |p|
  {
    i > 0 && (if CaseIgnorable(p[i - 1]) then InWord(p, i - 1) else IsLetter(p[i - 1]))
  }

  /** Foundation's `capitalized` rule at one position: the first character of
      a word is upper-cased, every other one lower-cased. */
  function CaseAt(p: string, i: nat): char
    requires i < |p|
  {
    if InWord(p, i) then LowerChar(p[i]) else UpperChar(p[i])
  }

  /** `capitalized` as a left-to-right scan that remembers whether the last
      character that was not case-ignorable was a letter. */
  function CapitalizeFrom(s: string, inWord: bool): (r: string)
    ensures |r| == |s|
  {
    if |s| == 0 then ""
    else
      var next := if CaseIgnorable(s[0]) then inWord else IsLetter(s[0]);
      [if inWord then LowerChar(s[0]) else UpperChar(s[0])] + CapitalizeFrom(s[1..], next)
  }

  /** The scan started at position `k` in the state `InWord` gives there
      agrees with the positional rule at every later position. */
  lemma {:induction false} CapitalizeFromAgrees(p: string, k: nat)
    requires k <= |p|
    ensures forall i :: k <= i < |p| ==> CapitalizeFrom(p[k..], InWord(p, k))[i - k] == CaseAt(p, i)
    decreases |p| - k
  {
    if k < |p| {
      CapitalizeFromAgrees(p, k + 1);
      assert p[k..][1..] == p[k + 1..];
      assert InWord(p, k + 1) == if CaseIgnorable(p[k]) then InWord(p, k) else IsLetter(p[k]);
      var r := CapitalizeFrom(p[k..], InWord(p, k));
      assert r == [CaseAt(p, k)] + CapitalizeFrom(p[k + 1..], InWord(p, k + 1));
    }
  }

  /** `capitalized` applied to one hyphen-free component: a letter is
      upper-cased where a word starts (at the beginning, or after a digit or
      other non-letter) and lower-cased inside a word; nothing else changes. */
  function Capitalize(p: string): (r: string)
    ensures |r| == |p|
    ensures forall i :: 0 <= i < |p| ==> r[i] == CaseAt(p, i)
    ensures |p| > 0 ==> r[0] == UpperChar(p[0])
    ensures Lower(r) == Lower(p)
    ensures '-' !in p ==> '-' !in r
  {
    var r := CapitalizeFrom(p, false);
    CapitalizeFromAgrees(p, 0);
    assert p[0..] == p;
    assert forall i :: 0 <= i < |p| ==> LowerChar(r[i]) == LowerChar(p[i]) by {
      forall i | 0 <= i < |p| ensures LowerChar(r[i]) == LowerChar(p[i]) {
        assert r[i] == CaseAt(p, i);
        CaseKeepsHyphens(p[i]);
      }
    }
    assert forall i :: 0 <= i < |p| ==> (r[i] == '-' <==> p[i] == '-') by {
      forall i | 0 <= i < |p| ensures r[i] == '-' <==> p[i] == '-' {
        assert r[i] == CaseAt(p, i);
        CaseKeepsHyphens(p[i]);
      }
    }
    r
  }

  /** The later components capitalised and concatenated. */
  function CamelTail(ps: seq<string>): (r: string)
    ensures Lower(r) == Lower(Concat(ps))
    ensures AllPieces(ps) ==> '-' !in r
  {
    if |ps| == 0 then ""
    else
      var r := Capitalize(ps[0]) + CamelTail(ps[1..]);
      LowerAppend(Capitalize(ps[0]), CamelTail(ps[1..]));
      LowerAppend(ps[0], Concat(ps[1..]));
      r
  }

  /** The body of the custom key strategy. A key that splits into one component
      is that component, case untouched; otherwise the first component is
      lower-cased and every later one capitalised, joined with no separator.
      A key with no character other than hyphens splits into nothing and
      `components[0]` traps, so such keys are excluded. */
  function KebabToCamel(key: string): (r: string)
    requires HasNonHyphen(key)
    ensures IsPiece(r)
    ensures Lower(r) == Lower(RemoveHyphens(key))
    ensures '-' !in key ==> r == key
    ensures |Split(key)| >= 2 ==> r == Lower(Split(key)[0]) + CamelTail(Split(key)[1..])
  {
    var ps := Split(key);
    SplitNonEmpty(key);
    SplitConcat(key);
    SplitHyphenFree(key);
    if |ps| == 1 then
      assert Concat(ps) == ps[0];
      ps[0]
    else
      var r := Lower(ps[0]) + CamelTail(ps[1..]);
      assert forall c :: LowerChar(c) == '-' <==> c == '-' by {
        forall c { CaseKeepsHyphens(c); }
      }
      LowerAppend(Lower(ps[0]), CamelTail(ps[1..]));
      LowerAppend(ps[0], Concat(ps[1..]));
      LowerIdempotent(ps[0]);
      assert Lower(ps[0])[0] in Lower(ps[0]);
      r
  }

  /** The strategy closure: only the last element of the coding path is
      transformed; `codingKeys.last!` traps on an empty path. */
  function ConvertLastKey(codingPath: seq<string>): (r: string)
    requires |codingPath| > 0 && HasNonHyphen(codingPath[|codingPath| - 1])
    ensures IsPiece(r)
    ensures Lower(r) == Lower(RemoveHyphens(codingPath[|codingPath| - 1]))
  {
    KebabToCamel(codingPath[|codingPath| - 1])
  }

  /** The converted key does not depend on where in the document it sits. */
  lemma ConvertIgnoresDepth(outer: seq<string>, other: seq<string>, key: string)
    requires HasNonHyphen(key)
    ensures ConvertLastKey(outer + [key]) == ConvertLastKey(other + [key]) == KebabToCamel(key)
  {
  }

  /** Normalising an already normalised key changes nothing. */
  lemma KebabToCamelIdempotent(key: string)
    requires HasNonHyphen(key)
    ensures HasNonHyphen(KebabToCamel(key))
    ensures KebabToCamel(KebabToCamel(key)) == KebabToCamel(key)
  {
    var r := KebabToCamel(key);
    assert r[0] != '-' by { assert r[0] in r; }
  }

  /** Normalising the kebab-case join of two or more words gives the first word
      lower-cased followed by the others capitalised. */
  lemma KebabToCamelOfJoin(ps: seq<string>)
    requires AllPieces(ps) && |ps| >= 2
    ensures HasNonHyphen(Join(ps))
    ensures KebabToCamel(Join(ps)) == Lower(ps[0]) + CamelTail(ps[1..])
  {
    SplitJoin(ps);
  }

  /** Only the components matter: a key converts as the single-hyphen join of
      its components does, whatever leading, trailing or doubled hyphens it
      has. */
  lemma KebabToCamelOfSplit(key: string)
    requires HasNonHyphen(key)
    ensures HasNonHyphen(Join(Split(key)))
    ensures KebabToCamel(key) == KebabToCamel(Join(Split(key)))
  {
    SplitNonEmpty(key);
    SplitJoin(Split(key));
    SplitNonEmpty(Join(Split(key)));
  }

  /** A single word comes back exactly as written, whatever its case. */
  lemma KebabToCamelOfWord(p: string)
    requires IsPiece(p)
    ensures HasNonHyphen(p)
    ensures KebabToCamel(p) == p
  {
    assert p[0] in p;
  }

  /** Two words joined by one hyphen: the first lower-cased, the second
      capitalised. */
  lemma KebabToCamelOfPair(a: string, b: string)
    requires IsPiece(a) && IsPiece(b)
    ensures HasNonHyphen(a + "-" + b)
    ensures KebabToCamel(a + "-" + b) == Lower(a) + Capitalize(b)
  {
    KebabToCamelOfJoin([a, b]);
    assert Join([a, b]) == a + "-" + b;
    assert CamelTail([b]) == Capitalize(b);
  }

  /** A key of the sample document becomes the property name of its `Movie`. */
  lemma KebabExampleReleasedStatus()
    ensures HasNonHyphen("released-status") && KebabToCamel("released-status") == "releasedStatus"
  {
    assert "released" + "-" + "status" == "released-status";
    assert Lower("released") + Capitalize("status") == "releasedStatus" by {
      SampleWords();
      CapitalizeStatus();
      assert "released" + "Status" == "releasedStatus";
    }
    KebabToCamelOfPair("released", "status");
  }

  lemma SampleWords()
    ensures IsPiece("released") && IsPiece("status")
    ensures Lower("released") == "released"
  {
    assert forall i :: 0 <= i < 8 ==> "released"[i] != '-';
  }

  lemma CapitalizeStatus()
    ensures Capitalize("status") == "Status"
  {
    assert !InWord("status", 0);
    assert forall i :: 1 <= i < 6 ==> InWord("status", i);
  }

  lemma KebabExampleThreeWords()
    ensures HasNonHyphen("a-b-c") && KebabToCamel("a-b-c") == "aBC"
  {
    assert Join(["a", "b", "c"]) == "a-b-c" by {
      assert ["a", "b", "c"][1..] == ["b", "c"];
      assert ["b", "c"][1..] == ["c"];
    }
    assert Lower("a") + CamelTail(["b", "c"]) == "aBC" by {
      assert Lower("a") == "a";
      assert Capitalize("b") == "B";
      assert Capitalize("c") == "C";
      assert ["b", "c"][1..] == ["c"];
      assert CamelTail(["c"]) == "C";
    }
    KebabToCamelOfJoin(["a", "b", "c"]);
  }

  /** A digit ends a word, so the letter after it is upper-cased again. */
  lemma KebabExampleDigitBoundary()
    ensures HasNonHyphen("x-2fa") && KebabToCamel("x-2fa") == "x2Fa"
  {
    assert "x" + "-" + "2fa" == "x-2fa";
    KebabToCamelOfPair("x", "2fa");
    assert Lower("x") == "x";
    CapitalizeAfterDigit();
    assert "x" + "2Fa" == "x2Fa";
  }

  /** The letter after a digit starts a word. */
  lemma CapitalizeAfterDigit()
    ensures Capitalize("2fa") == "2Fa"
  {
    assert !InWord("2fa", 0) && !InWord("2fa", 1) && InWord("2fa", 2);
  }

  /** A case-ignorable character does not end a word. */
  lemma CapitalizeApostrophe()
    ensures Capitalize("don't") == "Don't"
  {
    assert !InWord("don't", 0) && InWord("don't", 1) && InWord("don't", 2) && InWord("don't", 3) && InWord("don't", 4);
  }

  /** A leading hyphen makes no empty first component. */
  lemma KebabExampleLeadingHyphen()
    ensures HasNonHyphen("-name") && KebabToCamel("-name") == "name"
  {
    assert "-name"[1] != '-';
    SplitPiece("name");
    assert "-name"[1..] == "name";
    SplitAtHyphen("-name");
  }

  /** A doubled hyphen makes no empty middle component. */
  lemma KebabExampleDoubledHyphen()
    ensures HasNonHyphen("a--b") && KebabToCamel("a--b") == "aB"
  {
    assert "a--b"[0] != '-';
    SplitPiece("b");
    SplitAtRun("a--b");
    assert RunLength("a--b") == 1;
    assert "a--b"[..1] == "a" && "a--b"[1..] == "--b";
    SplitAtHyphen("--b");
    assert "--b"[1..] == "-b";
    SplitAtHyphen("-b");
    assert "-b"[1..] == "b";
    assert Split("a--b") == ["a", "b"];
    assert Capitalize("b") == "B";
  }
}
