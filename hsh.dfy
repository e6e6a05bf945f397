/**
 * Unit-name (HSH) normalisation and matching: `normalize_hsh` and
 * `find_matching_hsh` of RapportLCV_3fcoklat.py.
 */
module Hsh {
  import opened Values
  import opened Text
  import opened Search
  import opened Matching

  /** The number of whitespace characters s starts with. */
  function LeadingSpaces(s: string): (n: nat)
    ensures n <= |s|
    ensures forall i :: 0 <= i < n ==> IsSpace(s[i])
    ensures n < |s| ==> !IsSpace(s[n])
  {
    if s != [] && IsSpace(s[0]) then 1 + LeadingSpaces(s[1..]) else 0
  }

  /** The number of whitespace characters s ends with. */
  function TrailingSpaces(s: string): (n: nat)
    ensures n <= |s|
    ensures forall i :: |s| - n <= i < |s| ==> IsSpace(s[i])
    ensures n < |s| ==> !IsSpace(s[|s| - n - 1])
  {
    if s != [] && IsSpace(s[|s| - 1]) then 1 + TrailingSpaces(s[..|s| - 1]) else 0
  }

  /** `str.lstrip()`: drops the leading whitespace. */
  function TrimLeft(s: string): string {
    s[LeadingSpaces(s)..]
  }

  /** `str.rstrip()`: drops the trailing whitespace. */
  function TrimRight(s: string): string {
    s[..|s| - TrailingSpaces(s)]
  }

  /** `str.strip()`: no whitespace is left at either end, and the words are those of s. */
  function Strip(s: string): (r: string)
    ensures r == [] || (!IsSpace(r[0]) && !IsSpace(r[|r| - 1]))
    ensures Words(r) == Words(s)
  {
    WordsTrimmed(s);
    TrimRight(TrimLeft(s))
  }

  /** The length of the longest whitespace-free prefix of s. */
  function WordLength(s: string): (n: nat)
    ensures n <= |s|
    ensures forall i :: 0 <= i < n ==> !IsSpace(s[i])
    ensures n < |s| ==> IsSpace(s[n])
  {
    if s == [] || IsSpace(s[0]) then 0 else 1 + WordLength(s[1..])
  }

  predicate IsWord(w: string) {
    w != [] && forall i :: 0 <= i < |w| ==> !IsSpace(w[i])
  }

  /** `str.split()` with no separator: the maximal runs of non-whitespace, in order. */
  function Words(s: string): (ws: seq<string>)
    ensures forall k :: 0 <= k < |ws| ==> IsWord(ws[k])
    decreases |s|
  {
    var t := TrimLeft(s);
    if t == [] then []
    else
      var n := WordLength(t);
      [t[..n]] + Words(t[n..])
  }

  /** The words of a string without lower-case letters have none either. */
  lemma {:induction false} WordsNoLower(s: string)
    requires NoLower(s)
    ensures forall k :: 0 <= k < |Words(s)| ==> NoLower(Words(s)[k])
    decreases |s|
  {
    var t := TrimLeft(s);
    if t != [] {
      var n := WordLength(t);
      assert t == s[LeadingSpaces(s)..];
      NoLowerSlice(s, LeadingSpaces(s), |s|);
      NoLowerSlice(t, 0, n);
      NoLowerSlice(t, n, |t|);
      assert t[0..n] == t[..n] && t[n..|t|] == t[n..];
      WordsNoLower(t[n..]);
      assert Words(s) == [t[..n]] + Words(t[n..]);
    }
  }

  /** `' '.join(ws)`: the words with one space between each two; it starts with the first word. */
  function JoinSpace(ws: seq<string>): (r: string)
    ensures ws != [] && ws[0] != [] ==> r != [] && r[0] == ws[0][0]
  {
    if ws == [] then ""
    else if |ws| == 1 then ws[0]
    else ws[0] + " " + JoinSpace(ws[1..])
  }

  /** Splitting words joined by single spaces gives them back. */
  lemma {:induction false} WordsOfJoin(ws: seq<string>)
    requires forall k :: 0 <= k < |ws| ==> IsWord(ws[k])
    ensures Words(JoinSpace(ws)) == ws
  {
    if |ws| == 1 {
      SingleWord(ws[0]);
    } else if |ws| > 1 {
      WordsOfJoin(ws[1..]);
      JoinWordsStep(ws, JoinSpace(ws[1..]));
    }
  }

  /** The step of `JoinSpace`'s round trip: a first word, a space and the joined rest split into all the words. */
  lemma JoinWordsStep(ws: seq<string>, rest: string)
    requires |ws| > 1 && forall k :: 0 <= k < |ws| ==> IsWord(ws[k])
    requires rest != [] && ws[1] != [] && rest[0] == ws[1][0] && Words(rest) == ws[1..]
    ensures Words(ws[0] + " " + rest) == ws
  {
    assert IsWord(ws[1]);
    WordsPrepend(ws[0], rest);
    assert ws == [ws[0]] + ws[1..];
  }

  /** Each word upper-cased. */
  function UpperWords(ws: seq<string>): (us: seq<string>)
    ensures |us| == |ws| && forall k :: 0 <= k < |ws| ==> us[k] == Upper(ws[k])
  {
    seq(|ws|, k requires 0 <= k < |ws| => Upper(ws[k]))
  }

  /** The characterisation of `LeadingSpaces` has one solution. */
  lemma LeadingSpacesUnique(s: string, n: nat)
    requires n <= |s| && (forall i :: 0 <= i < n ==> IsSpace(s[i])) && (n < |s| ==> !IsSpace(s[n]))
    ensures LeadingSpaces(s) == n
  {
  }

  /** The characterisation of `WordLength` has one solution. */
  lemma WordLengthUnique(s: string, n: nat)
    requires n <= |s| && (forall i :: 0 <= i < n ==> !IsSpace(s[i])) && (n < |s| ==> IsSpace(s[n]))
    ensures WordLength(s) == n
  {
  }

  /** Two strings with whitespace at the same positions have the same leading whitespace and first word length. */
  lemma SameSpaces(s: string, t: string)
    requires |s| == |t| && forall i :: 0 <= i < |s| ==> (IsSpace(s[i]) <==> IsSpace(t[i]))
    ensures LeadingSpaces(t) == LeadingSpaces(s) && WordLength(t) == WordLength(s)
  {
    LeadingSpacesUnique(t, LeadingSpaces(s));
    WordLengthUnique(t, WordLength(s));
  }

  /** Upper-casing commutes with slicing. */
  lemma UpperSlices(s: string, k: nat)
    requires k <= |s|
    ensures Upper(s)[k..] == Upper(s[k..]) && Upper(s)[..k] == Upper(s[..k])
  {
    assert forall i :: 0 <= i < |s| - k ==> Upper(s)[k..][i] == Upper(s[k..])[i];
    assert forall i :: 0 <= i < k ==> Upper(s)[..k][i] == Upper(s[..k])[i];
  }

  lemma UpperWordsCons(w: string, ws: seq<string>)
    ensures UpperWords([w] + ws) == [Upper(w)] + UpperWords(ws)
  {
    var a, b := UpperWords([w] + ws), [Upper(w)] + UpperWords(ws);
    forall k | 0 <= k < |a|
      ensures a[k] == b[k]
    {
      if k > 0 {
        assert ([w] + ws)[k] == ws[k - 1];
      }
    }
  }

  /** The words of an upper-cased string are its words upper-cased. */
  lemma {:induction false} WordsUpper(s: string)
    ensures Words(Upper(s)) == UpperWords(Words(s))
    decreases |s|
  {
    var u := Upper(s);
    SameSpaces(s, u);
    var t := TrimLeft(s);
    var tu := TrimLeft(u);
    UpperSlices(s, LeadingSpaces(s));
    assert tu == Upper(t);
    if t != [] {
      var n := WordLength(t);
      SameSpaces(t, tu);
      UpperSlices(t, n);
      WordsUpper(t[n..]);
      UpperWordsCons(t[..n], Words(t[n..]));
    }
  }

  /** A string of whitespace only has no words. */
  lemma AllSpaceWords(x: string)
    requires forall i :: 0 <= i < |x| ==> IsSpace(x[i])
    ensures Words(x) == []
  {
    LeadingSpacesUnique(x, |x|);
  }

  /** Whitespace appended after a non-blank string stays after it once the leading whitespace is dropped. */
  lemma TrimLeftAppend(y: string, z: string)
    requires LeadingSpaces(y) < |y|
    ensures TrimLeft(y + z) == TrimLeft(y) + z
  {
    var x, k := y + z, LeadingSpaces(y);
    assert forall i :: 0 <= i < |y| ==> x[i] == y[i];
    LeadingSpacesUnique(x, k);
    SliceAppend(y, z, k);
  }

  /** Appended whitespace ends the first word of a string that starts with one, and stays after the rest. */
  lemma WordAppend(t: string, z: string)
    requires t != [] && !IsSpace(t[0]) && forall i :: 0 <= i < |z| ==> IsSpace(z[i])
    ensures Words(t + z) == [t[..WordLength(t)]] + Words(t[WordLength(t)..] + z)
  {
    var x, n := t + z, WordLength(t);
    assert forall i :: 0 <= i < |t| ==> x[i] == t[i];
    if n == |t| && z != [] {
      assert x[n] == z[0];
    }
    WordLengthUnique(x, n);
    WordsCons(x);
    SliceAppend(t, z, n);
  }

  /** Whitespace appended to a string does not change its words. */
  lemma {:induction false} WordsTrailing(y: string, z: string)
    requires forall i :: 0 <= i < |z| ==> IsSpace(z[i])
    ensures Words(y + z) == Words(y)
    decreases |y|
  {
    if LeadingSpaces(y) == |y| {
      AllSpaceWords(y + z);
      AllSpaceWords(y);
    } else {
      TrimLeftAppend(y, z);
      var t := TrimLeft(y);
      WordAppend(t, z);
      WordsTrailing(t[WordLength(t)..], z);
      WordsSkipLeading(y);
      WordsSkipLeading(y + z);
      WordsCons(t);
    }
  }

  /** Stripping does not change the words. */
  lemma WordsTrimmed(s: string)
    ensures var r := TrimRight(TrimLeft(s));
      && Words(r) == Words(s)
      && (r == [] || (!IsSpace(r[0]) && !IsSpace(r[|r| - 1])))
  {
    WordsSkipLeading(s);
    var t := TrimLeft(s);
    assert t == [] || !IsSpace(t[0]);
    WordsTrimRight(t);
  }

  /** Dropping the trailing whitespace does not change the words. */
  lemma WordsTrimRight(t: string)
    ensures Words(TrimRight(t)) == Words(t)
    ensures var r := TrimRight(t); r == [] || !IsSpace(r[|r| - 1])
  {
    var m := |t| - TrailingSpaces(t);
    assert t == t[..m] + t[m..];
    WordsTrailing(t[..m], t[m..]);
  }

  /** A word, one space and a string starting with a word split into that word and the words of the rest. */
  lemma WordsPrepend(w: string, rest: string)
    requires IsWord(w) && rest != [] && !IsSpace(rest[0])
    ensures Words(w + " " + rest) == [w] + Words(rest)
  {
    var x := w + " " + rest;
    assert x == w + (" " + rest);
    SliceAppend(w, " " + rest, |w|);
    assert x[|w| + 1..] == rest;
    WordsCons(x);
    WordLengthUnique(x, |w|);
    WordsAfterSpace(x, |w|);
  }

  /**
   * The shape every normalised name has: no lower-case letter, no
   * whitespace but the plain space, no space at either end, and no two
   * spaces in a row.
   */
  predicate IsNormalForm(s: string) {
    && (forall i :: 0 <= i < |s| ==> !IsLower(s[i]) && (IsSpace(s[i]) ==> s[i] == ' '))
    && (s != [] ==> s[0] != ' ' && s[|s| - 1] != ' ')
    && (forall i :: 0 <= i < |s| - 1 ==> !(s[i] == ' ' && s[i + 1] == ' '))
  }

  /**
   * `normalize_hsh` on a present value: strip, upper-case, collapse
   * whitespace runs. `NormalizeWords` states which words the result holds.
   */
  function NormalizeText(s: string): (r: string)
    ensures IsNormalForm(r)
  {
    var ws := Words(Upper(Strip(s)));
    WordsNoLower(Upper(Strip(s)));
    JoinIsNormal(ws);
    JoinSpace(ws)
  }

  /** `normalize_hsh`: a missing value becomes the empty name. */
  function Normalize(c: Cell): (r: string)
    ensures IsNormalForm(r)
    ensures c.Missing? ==> r == ""
  {
    match c
    case Missing => ""
    case Text(s) => NormalizeText(s)
  }

  /** Joining upper-case words with single spaces gives a string in normal form. */
  lemma {:induction false} JoinIsNormal(ws: seq<string>)
    requires forall k :: 0 <= k < |ws| ==> IsWord(ws[k]) && NoLower(ws[k])
    ensures IsNormalForm(JoinSpace(ws))
    ensures ws != [] ==> JoinSpace(ws) != [] && JoinSpace(ws)[0] == ws[0][0]
  {
    if |ws| > 1 {
      JoinIsNormal(ws[1..]);
      NormalCons(ws[0], JoinSpace(ws[1..]));
    }
  }

  /** An upper-case word, one space and a string in normal form starting with a word make a string in normal form. */
  lemma NormalCons(w: string, rest: string)
    requires IsWord(w) && NoLower(w) && IsNormalForm(rest) && rest != [] && !IsSpace(rest[0])
    ensures IsNormalForm(w + " " + rest)
  {
    var r := w + " " + rest;
    assert forall i :: 0 <= i < |w| ==> r[i] == w[i];
    assert r[|w|] == ' ';
    assert forall i :: |w| < i < |r| ==> r[i] == rest[i - |w| - 1];
  }

  /** What follows the first space of a string in normal form is in normal form and starts a word. */
  lemma NormalTail(s: string, n: nat)
    requires IsNormalForm(s) && n < |s| && s[n] == ' '
    ensures n + 1 < |s| && !IsSpace(s[n + 1]) && IsNormalForm(s[n + 1..])
  {
    var rest := s[n + 1..];
    assert forall i :: 0 <= i < |rest| ==> rest[i] == s[n + 1 + i];
  }

  /** A single whitespace character in front of a word does not change the words. */
  lemma WordsAfterSpace(s: string, n: nat)
    requires n + 1 < |s| && IsSpace(s[n]) && !IsSpace(s[n + 1])
    ensures Words(s[n..]) == Words(s[n + 1..])
  {
    var x := s[n..];
    assert x[1..] == s[n + 1..];
    assert LeadingSpaces(x[1..]) == 0;
    assert TrimLeft(x) == x[1..];
    WordsSkipLeading(x);
    WordsSkipLeading(x[1..]);
  }

  /** Leading whitespace does not change the words. */
  lemma WordsSkipLeading(x: string)
    ensures Words(x) == Words(TrimLeft(x))
  {
    var t := TrimLeft(x);
    assert LeadingSpaces(t) == 0;
    assert TrimLeft(t) == t;
  }

  /** Joining a word in front of a non-empty list of words puts one space between. */
  lemma JoinCons(w: string, ws: seq<string>)
    requires ws != []
    ensures JoinSpace([w] + ws) == w + " " + JoinSpace(ws)
  {
    assert ([w] + ws)[1..] == ws;
  }

  /** A string that starts with a word splits into that word and the words of the rest. */
  lemma WordsCons(s: string)
    requires s != [] && !IsSpace(s[0])
    ensures Words(s) == [s[..WordLength(s)]] + Words(s[WordLength(s)..])
  {
    assert LeadingSpaces(s) == 0;
    assert s[0..] == s;
  }

  /** A string without whitespace is its own single word. */
  lemma SingleWord(s: string)
    requires IsWord(s)
    ensures Words(s) == [s]
  {
    assert LeadingSpaces(s) == 0;
    assert WordLength(s) == |s|;
    assert s[..|s|] == s;
    assert s[|s|..] == [];
  }

  /** A string in normal form that contains a space is its first word, a space, and a shorter string in normal form. */
  lemma SplitFirstWord(s: string, n: nat)
    requires IsNormalForm(s) && n == WordLength(s) < |s|
    ensures n + 1 < |s| && IsNormalForm(s[n + 1..])
    ensures Words(s) == [s[..n]] + Words(s[n + 1..])
  {
    WordsCons(s);
    NormalTail(s, n);
    WordsAfterSpace(s, n);
  }

  /** Splitting a string in normal form and joining it again gives it back. */
  lemma {:induction false} SplitJoinNormal(s: string)
    requires IsNormalForm(s)
    ensures JoinSpace(Words(s)) == s
    decreases |s|
  {
    if s != [] {
      var n := WordLength(s);
      if n < |s| {
        SplitFirstWord(s, n);
        var rest := s[n + 1..];
        SplitJoinNormal(rest);
        JoinCons(s[..n], Words(rest));
        SplitAround(s, n);
      } else {
        SingleWord(s);
      }
    }
  }

  /** A string in normal form is left unchanged by normalisation. */
  lemma NormalFormFixed(s: string)
    requires IsNormalForm(s)
    ensures NormalizeText(s) == s
  {
    assert TrimLeft(s) == s;
    assert TrimRight(s) == s;
    assert Strip(s) == s;
    assert Upper(s) == s;
    SplitJoinNormal(s);
  }

  /** The normalised name holds exactly the words of the input, upper-cased, in order. */
  lemma NormalizeWords(s: string)
    ensures Words(NormalizeText(s)) == UpperWords(Words(s))
  {
    WordsOfJoin(Words(Upper(Strip(s))));
    WordsUpper(Strip(s));
  }

  /**
   * Two names get the same key exactly when their words agree once
   * upper-cased: `"PT Pertamina (Persero)"` and `"pt   pertamina (persero)"`
   * are the same unit.
   */
  lemma SameKeyIff(a: string, b: string)
    ensures NormalizeText(a) == NormalizeText(b) <==> UpperWords(Words(a)) == UpperWords(Words(b))
  {
    NormalizeWords(a);
    NormalizeWords(b);
    WordsUpper(Strip(a));
    WordsUpper(Strip(b));
  }

  /** Normalisation fixes exactly the strings in normal form. */
  lemma NormalizeFixedIff(s: string)
    ensures NormalizeText(s) == s <==> IsNormalForm(s)
  {
    if IsNormalForm(s) {
      NormalFormFixed(s);
    }
  }

  /** Normalising twice is normalising once. */
  lemma NormalizeIdempotent(c: Cell)
    ensures Normalize(Text(Normalize(c))) == Normalize(c)
  {
    NormalFormFixed(Normalize(c));
  }

  /** The normalised key of every element, in order: what `.apply(normalize_hsh)` gives. */
  function Keys(hs: seq<Cell>): (ks: seq<string>)
    ensures |ks| == |hs|
  {
    if hs == [] then [] else [Normalize(hs[0])] + Keys(hs[1..])
  }

  /** The key at a position is the normalised element there. */
  lemma {:induction false} KeyAt(hs: seq<Cell>, i: nat)
    requires i < |hs|
    ensures Keys(hs)[i] == Normalize(hs[i])
  {
    if i > 0 {
      assert Keys(hs) == [Normalize(hs[0])] + Keys(hs[1..]);
      KeyAt(hs[1..], i - 1);
    }
  }

  /** The element `find_matching_hsh` returns, chosen on the normalised keys. */
  function MatchedElement(target: Cell, hs: seq<Cell>): (r: Option<Cell>)
    ensures r.Some? ==> r.value in hs
  {
    match MatchIndex(Normalize(target), Keys(hs))
    case None => None
    case Some(i) => Some(hs[i])
  }

  /** The first element whose name normalises to the target's is the one returned. */
  lemma MatchedElementExact(target: Cell, hs: seq<Cell>, i: nat)
    requires i < |hs| && Normalize(hs[i]) == Normalize(target)
    requires forall j :: 0 <= j < i ==> Normalize(hs[j]) != Normalize(target)
    ensures MatchedElement(target, hs) == Some(hs[i])
  {
    var keys := Keys(hs);
    KeyAt(hs, i);
    forall j | 0 <= j < i
      ensures !KeyEquals(Normalize(target), keys[j])
    {
      KeyAt(hs, j);
    }
    ExactMatchIndex(Normalize(target), keys, i);
  }

  /** With no element normalising to the target's key, the first element whose key overlaps it is the one returned. */
  lemma MatchedElementOverlap(target: Cell, hs: seq<Cell>, i: nat)
    requires i < |hs| && KeyOverlaps(Normalize(target), Normalize(hs[i]))
    requires forall j :: 0 <= j < |hs| ==> Normalize(hs[j]) != Normalize(target)
    requires forall j :: 0 <= j < i ==> !KeyOverlaps(Normalize(target), Normalize(hs[j]))
    ensures MatchedElement(target, hs) == Some(hs[i])
  {
    var t, keys := Normalize(target), Keys(hs);
    forall j | 0 <= j < |hs|
      ensures keys[j] == Normalize(hs[j])
    {
      KeyAt(hs, j);
    }
    OverlapMatchIndex(t, keys, i);
  }

  /**
   * Nothing is returned exactly when no element's key and the target's key
   * contain one another.
   */
  lemma MatchedElementNone(target: Cell, hs: seq<Cell>)
    ensures MatchedElement(target, hs).None? <==>
      forall j :: 0 <= j < |hs| ==> !KeyOverlaps(Normalize(target), Normalize(hs[j]))
  {
    var t, keys := Normalize(target), Keys(hs);
    forall j | 0 <= j < |hs|
      ensures keys[j] == Normalize(hs[j])
    {
      KeyAt(hs, j);
    }
    assert MatchIndex(t, keys).None? <==> forall j :: 0 <= j < |keys| ==> !KeyOverlaps(t, keys[j]);
  }

  /**
   * `find_matching_hsh`: the target and every element are normalised, then
   * the two scans run over the keys.
   */
  method FindMatchingHsh(target: Cell, hshList: seq<Cell>) returns (r: Option<Cell>)
    ensures r == MatchedElement(target, hshList)
  {
    var i := ScanKeys(Normalize(target), Keys(hshList));
    r := match i case None => None case Some(k) => Some(hshList[k]);
  }
}
