/** `split_str` (and its copy `split`): cut a string into the maximal runs of
    characters that are not delimiters. Leading, trailing and repeated
    delimiters produce no empty pieces. */
module Tokens {
  import opened Wrappers

  /** A piece `split_str` can produce: non-empty and free of delimiters. */
  predicate IsToken(t: string, delims: set<char>) {
    |t| > 0 && forall i :: 0 <= i < |t| ==> t[i] !in delims
  }

  predicate NoDelims(s: string, delims: set<char>) {
    forall i :: 0 <= i < |s| ==> s[i] !in delims
  }

  /** Length of the run of non-delimiters at the front of `s`. */
  function TokenLength(s: string, delims: set<char>): (n: nat)
    ensures n <= |s| && NoDelims(s[..n], delims)
    ensures n < |s| ==> s[n] in delims
    decreases |s|
  {
    if |s| == 0 || s[0] in delims then 0 else 1 + TokenLength(s[1..], delims)
  }

  /** The pieces of `s`, as a recursive definition over its characters. */
  function Split(s: string, delims: set<char>): (pieces: seq<string>)
    ensures forall i :: 0 <= i < |pieces| ==> IsToken(pieces[i], delims)
    decreases |s|
  {
    if |s| == 0 then []
    else if s[0] in delims then Split(s[1..], delims)
    else
      var n := TokenLength(s, delims);
      [s[..n]] + Split(s[n..], delims)
  }

  /** `std::string::find_first_not_of`; `None` plays the part of `npos`. */
  function FindFirstNotOf(s: string, delims: set<char>): (r: Option<nat>)
    ensures r.Some? ==> r.value < |s| && s[r.value] !in delims
    ensures r.Some? ==> forall i :: 0 <= i < r.value ==> s[i] in delims
    ensures r.None? ==> forall i :: 0 <= i < |s| ==> s[i] in delims
    decreases |s|
  {
    if |s| == 0 then None
    else if s[0] !in delims then Some(0)
    else match FindFirstNotOf(s[1..], delims)
      case None => None
      case Some(k) => Some(k + 1)
  }

  /** `std::string::find_first_of`; `None` plays the part of `npos`. */
  function FindFirstOf(s: string, delims: set<char>): (r: Option<nat>)
    ensures r.Some? ==> r.value < |s| && s[r.value] in delims
    ensures r.Some? ==> NoDelims(s[..r.value], delims)
    ensures r.None? ==> NoDelims(s, delims)
    decreases |s|
  {
    if |s| == 0 then None
    else if s[0] in delims then Some(0)
    else match FindFirstOf(s[1..], delims)
      case None => None
      case Some(k) =>
        assert s[..k + 1] == [s[0]] + s[1..][..k];
        Some(k + 1)
  }

  /** The loop of `split_str`: repeatedly drop the leading delimiters, then
      cut off everything up to the next delimiter (or the end) as a piece.
      It computes exactly `Split`. */
  method SplitStr(str: string, delims: set<char>) returns (pieces: seq<string>)
    ensures pieces == Split(str, delims)
  {
    var s := str;
    pieces := [];
    var next := FindFirstNotOf(s, delims);
    while next.Some?
      invariant pieces + Split(s, delims) == Split(str, delims)
      invariant next == FindFirstNotOf(s, delims)
      decreases |s|
    {
      SplitSkipsDelims(s, next.value, delims);
      s := s[next.value..];
      var delimPos := FindFirstOf(s, delims);
      var end := if delimPos.Some? then delimPos.value else |s|;
      SplitTakesToken(s, end, delims);
      pieces := pieces + [s[..end]];
      s := s[end..];
      next := FindFirstNotOf(s, delims);
    }
    SplitOfDelims(s, delims);
  }

  lemma {:induction false} SplitSkipsDelims(s: string, k: nat, delims: set<char>)
    requires k <= |s|
    requires forall i :: 0 <= i < k ==> s[i] in delims
    ensures Split(s, delims) == Split(s[k..], delims)
    decreases k
  {
    if k > 0 {
      SplitSkipsDelims(s[1..], k - 1, delims);
      assert s[1..][k - 1..] == s[k..];
    }
  }

  lemma {:induction false} SplitOfDelims(s: string, delims: set<char>)
    requires forall i :: 0 <= i < |s| ==> s[i] in delims
    ensures Split(s, delims) == []
  {
    SplitSkipsDelims(s, |s|, delims);
  }

  lemma {:induction false} TokenLengthIsFirstDelim(s: string, end: nat, delims: set<char>)
    requires end <= |s| && NoDelims(s[..end], delims)
    requires end < |s| ==> s[end] in delims
    ensures TokenLength(s, delims) == end
  {
    var n := TokenLength(s, delims);
    forall i | 0 <= i < end
      ensures s[i] !in delims
    {
      assert s[..end][i] == s[i];
    }
    forall i | 0 <= i < n
      ensures s[i] !in delims
    {
      assert s[..n][i] == s[i];
    }
  }

  lemma {:induction false} SplitTakesToken(s: string, end: nat, delims: set<char>)
    requires 0 < |s| && s[0] !in delims
    requires end <= |s| && NoDelims(s[..end], delims)
    requires end < |s| ==> s[end] in delims
    ensures 0 < end
    ensures Split(s, delims) == [s[..end]] + Split(s[end..], delims)
  {
    TokenLengthIsFirstDelim(s, end, delims);
  }

  /** Concatenation of pieces. */
  function Concat(pieces: seq<string>): string {
    if |pieces| == 0 then "" else pieces[0] + Concat(pieces[1..])
  }

  /** `s` with every delimiter character deleted. */
  function RemoveDelims(s: string, delims: set<char>): string {
    if |s| == 0 then ""
    else if s[0] in delims then RemoveDelims(s[1..], delims)
    else [s[0]] + RemoveDelims(s[1..], delims)
  }

  lemma {:induction false} RemoveDelimsOfToken(t: string, rest: string, delims: set<char>)
    requires NoDelims(t, delims)
    ensures RemoveDelims(t + rest, delims) == t + RemoveDelims(rest, delims)
    decreases |t|
  {
    if |t| > 0 {
      assert (t + rest)[1..] == t[1..] + rest;
      RemoveDelimsOfToken(t[1..], rest, delims);
      assert t == [t[0]] + t[1..];
    } else {
      assert t + rest == rest;
    }
  }

  /** No character is lost or invented: the pieces, put back together, are
      the input with its delimiters deleted. */
  lemma {:induction false} SplitLosesOnlyDelims(s: string, delims: set<char>)
    ensures Concat(Split(s, delims)) == RemoveDelims(s, delims)
    decreases |s|
  {
    if |s| > 0 {
      if s[0] in delims {
        SplitLosesOnlyDelims(s[1..], delims);
      } else {
        var n := TokenLength(s, delims);
        SplitLosesOnlyDelims(s[n..], delims);
        var pieces := [s[..n]] + Split(s[n..], delims);
        assert pieces[1..] == Split(s[n..], delims);
        assert s == s[..n] + s[n..];
        RemoveDelimsOfToken(s[..n], s[n..], delims);
      }
    }
  }

  /** Joins pieces with one separator between neighbours. */
  function Join(pieces: seq<string>, sep: char): string {
    if |pieces| == 0 then ""
    else if |pieces| == 1 then pieces[0]
    else pieces[0] + [sep] + Join(pieces[1..], sep)
  }

  lemma {:induction false} SplitOfTokenThenRest(t: string, rest: string, delims: set<char>)
    requires IsToken(t, delims)
    requires |rest| == 0 || rest[0] in delims
    ensures Split(t + rest, delims) == [t] + Split(rest, delims)
  {
    var s := t + rest;
    assert s[..|t|] == t && s[|t|..] == rest;
    SplitTakesToken(s, |t|, delims);
  }

  /** Splitting undoes joining, for pieces `split_str` could have produced. */
  lemma {:induction false} SplitJoinRoundTrip(pieces: seq<string>, sep: char, delims: set<char>)
    requires sep in delims
    requires forall i :: 0 <= i < |pieces| ==> IsToken(pieces[i], delims)
    ensures Split(Join(pieces, sep), delims) == pieces
    decreases |pieces|
  {
    if |pieces| == 1 {
      SplitOfTokenThenRest(pieces[0], "", delims);
      assert pieces[0] + "" == pieces[0];
    } else if |pieces| > 1 {
      var rest := Join(pieces[1..], sep);
      SplitJoinRoundTrip(pieces[1..], sep, delims);
      assert Join(pieces, sep) == pieces[0] + ([sep] + rest);
      SplitOfTokenThenRest(pieces[0], [sep] + rest, delims);
      assert ([sep] + rest)[1..] == rest;
      assert pieces == [pieces[0]] + pieces[1..];
    }
  }
}
