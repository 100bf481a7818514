/** The ordering `std::string` uses for `operator<`: character-by-character
    lexicographic comparison in which a proper prefix is the smaller string.
    Characters compare by code point, which for the byte range 0..255 is the
    unsigned-char order of `std::char_traits<char>`. */
module Lexical {

  /** `a < b` on strings, computed the way a comparison loop does it. */
  function Less(a: string, b: string): (less: bool)
    ensures less ==> a != b
    ensures |a| == 0 ==> (less <==> |b| > 0)
    decreases |a|
  {
    if |b| == 0 then false
    else if |a| == 0 then true
    else if a[0] != b[0] then a[0] < b[0]
    else Less(a[1..], b[1..])
  }

  /** `a` is a strict prefix of `b`. */
  ghost predicate IsProperPrefix(a: string, b: string) {
    |a| < |b| && a == b[..|a|]
  }

  /** `a` and `b` agree before position `k` and `a` is smaller at `k`. */
  ghost predicate FirstDifferenceAt(a: string, b: string, k: nat) {
    k < |a| && k < |b| && a[..k] == b[..k] && a[k] < b[k]
  }

  /** The textbook definition of lexicographic order. */
  ghost predicate LexicographicallyBefore(a: string, b: string) {
    IsProperPrefix(a, b) || exists k: nat :: FirstDifferenceAt(a, b, k)
  }

  /** The comparison loop agrees with the textbook definition, in both directions. */
  lemma {:induction false} LessIsLexicographic(a: string, b: string)
    ensures Less(a, b) <==> LexicographicallyBefore(a, b)
    decreases |a|
  {
    if |b| == 0 {
      assert !IsProperPrefix(a, b);
      assert forall k: nat :: !FirstDifferenceAt(a, b, k);
    } else if |a| == 0 {
      assert IsProperPrefix(a, b);
    } else if a[0] != b[0] {
      HeadsDiffer(a, b);
    } else {
      LessIsLexicographic(a[1..], b[1..]);
      SameHead(a, b);
    }
  }

  /** Strings with different first characters are ordered by those. */
  lemma {:induction false} HeadsDiffer(a: string, b: string)
    requires |a| > 0 && |b| > 0 && a[0] != b[0]
    ensures LexicographicallyBefore(a, b) <==> a[0] < b[0]
  {
    assert !IsProperPrefix(a, b) by {
      if |a| < |b| {
        assert b[..|a|][0] == b[0];
      }
    }
    forall k: nat | 0 < k
      ensures !FirstDifferenceAt(a, b, k)
    {
      if k < |a| && k < |b| {
        assert a[..k][0] == a[0] && b[..k][0] == b[0];
      }
    }
    if a[0] < b[0] {
      assert FirstDifferenceAt(a, b, 0);
    }
  }

  /** A common first character does not change the order of the rests. */
  lemma {:induction false} SameHead(a: string, b: string)
    requires |a| > 0 && |b| > 0 && a[0] == b[0]
    ensures LexicographicallyBefore(a, b) <==> LexicographicallyBefore(a[1..], b[1..])
  {
    var a', b' := a[1..], b[1..];
    assert a == [a[0]] + a' && b == [b[0]] + b';
    assert IsProperPrefix(a, b) <==> IsProperPrefix(a', b') by {
      if |a| < |b| {
        assert b[..|a|] == [b[0]] + b'[..|a'|];
      }
    }
    if k': nat :| FirstDifferenceAt(a', b', k') {
      assert a[..k' + 1] == [a[0]] + a'[..k'];
      assert b[..k' + 1] == [b[0]] + b'[..k'];
      assert FirstDifferenceAt(a, b, k' + 1);
    }
    if k: nat :| FirstDifferenceAt(a, b, k) {
      assert k != 0;
      assert a'[..k - 1] == a[..k][1..];
      assert b'[..k - 1] == b[..k][1..];
      assert FirstDifferenceAt(a', b', k - 1);
    }
  }

  lemma {:induction false} LessIrreflexive(a: string)
    ensures !Less(a, a)
    decreases |a|
  {
    if |a| > 0 {
      LessIrreflexive(a[1..]);
    }
  }

  lemma {:induction false} LessAsymmetric(a: string, b: string)
    ensures Less(a, b) ==> !Less(b, a)
    decreases |a|
  {
    if |a| > 0 && |b| > 0 && a[0] == b[0] {
      LessAsymmetric(a[1..], b[1..]);
    }
  }

  lemma {:induction false} LessTransitive(a: string, b: string, c: string)
    requires Less(a, b) && Less(b, c)
    ensures Less(a, c)
    decreases |a|
  {
    if |a| > 0 && a[0] == b[0] && b[0] == c[0] {
      LessTransitive(a[1..], b[1..], c[1..]);
    }
  }

  /** Any two distinct strings are ordered one way or the other. */
  lemma {:induction false} LessTrichotomous(a: string, b: string)
    ensures a == b || Less(a, b) || Less(b, a)
    decreases |a|
  {
    if |a| > 0 && |b| > 0 && a[0] == b[0] {
      LessTrichotomous(a[1..], b[1..]);
      assert a == [a[0]] + a[1..] && b == [b[0]] + b[1..];
    }
  }
}
