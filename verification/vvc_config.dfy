/** `parse_vvc_cfg_str`: the configuration string of a VVC, a comma-separated
    list of `key=value` items whose values are integers. */
module VvcConfig {
  import opened Wrappers
  import opened Decimal
  import Tokens

  type Config = map<string, int>

  /** How the parser reads one comma-separated item. */
  datatype Item =
    | Malformed                       // does not split on '=' into exactly two pieces
    | BadValue                        // two pieces, but `stoi` throws on the value
    | Pair(key: string, value: int)

  function ReadItem(item: string): (r: Item)
    ensures r.Pair? ==> Tokens.IsToken(r.key, {'='})
  {
    var kv := Tokens.Split(item, {'='});
    if |kv| != 2 then Malformed
    else match Stoi(kv[1])
      case None => BadValue
      case Some(v) => Pair(kv[0], v)
  }

  /** Every item read on its own (reading has no effect besides logging, so
      reading all items up front changes nothing). */
  function ReadItems(items: seq<string>): (parsed: seq<Item>)
    ensures |parsed| == |items|
    ensures forall i :: 0 <= i < |items| ==> parsed[i] == ReadItem(items[i])
  {
    seq(|items|, i requires 0 <= i < |items| => ReadItem(items[i]))
  }

  /** The loop over the items. A malformed item is skipped; a bad value ends
      the loop (the exception leaves the `try` block) keeping what was read so
      far; `emplace` never replaces the value of a key already present. */
  function ParseItems(parsed: seq<Item>, cfg: Config): (r: Config)
    ensures forall k :: k in cfg ==> k in r && r[k] == cfg[k]
    decreases |parsed|
  {
    if |parsed| == 0 then cfg
    else match parsed[0]
      case Malformed => ParseItems(parsed[1..], cfg)
      case BadValue => cfg
      case Pair(k, v) => ParseItems(parsed[1..], if k in cfg then cfg else cfg[k := v])
  }

  /** `parse_vvc_cfg_str`: the keys of the result are exactly the keys
      accepted from the items, and each is a nonempty text without `=`. */
  function ParseCfgStr(cfgStr: string): (cfg: Config)
    ensures var accepted := Accepted(ReadItems(Tokens.Split(cfgStr, {','})));
      && cfg.Keys == KeysOf(accepted)
      && FirstOccurrencesKept(accepted, map[], cfg)
    ensures forall k :: k in cfg ==> Tokens.IsToken(k, {'='})
  {
    var parsed := ReadItems(Tokens.Split(cfgStr, {','}));
    ParseItemsKeys(parsed, map[]);
    ParseItemsFirstWins(parsed, map[]);
    AcceptedKeysAreTokens(parsed);
    ParseItems(parsed, map[])
  }

  /** The pairs that take part, in order: every well-formed item before the
      first item whose value is not an integer. */
  function Accepted(parsed: seq<Item>): seq<(string, int)>
    decreases |parsed|
  {
    if |parsed| == 0 then []
    else match parsed[0]
      case Malformed => Accepted(parsed[1..])
      case BadValue => []
      case Pair(k, v) => [(k, v)] + Accepted(parsed[1..])
  }

  /** The keys of a list of pairs. */
  function KeysOf(pairs: seq<(string, int)>): set<string> {
    set i | 0 <= i < |pairs| :: pairs[i].0
  }

  /** `key` does not occur among the first `i` pairs. */
  predicate FirstOccurrence(pairs: seq<(string, int)>, i: nat)
    requires i < |pairs|
  {
    forall j :: 0 <= j < i ==> pairs[j].0 != pairs[i].0
  }

  lemma {:induction false} KeysOfCons(k: string, v: int, rest: seq<(string, int)>)
    ensures KeysOf([(k, v)] + rest) == {k} + KeysOf(rest)
  {
    var all := [(k, v)] + rest;
    forall x | x in KeysOf(all) ensures x in {k} + KeysOf(rest) {
      var i :| 0 <= i < |all| && all[i].0 == x;
      if i > 0 { assert rest[i - 1].0 == x; }
    }
    forall x | x in KeysOf(rest) ensures x in KeysOf(all) {
      var i :| 0 <= i < |rest| && rest[i].0 == x;
      assert all[i + 1].0 == x;
    }
    assert all[0].0 == k;
  }

  /** Every accepted key was read as a key, so it is a nonempty text without
      `=`. */
  lemma {:induction false} AcceptedKeysAreTokens(parsed: seq<Item>)
    requires forall i :: 0 <= i < |parsed| && parsed[i].Pair? ==> Tokens.IsToken(parsed[i].key, {'='})
    ensures forall k :: k in KeysOf(Accepted(parsed)) ==> Tokens.IsToken(k, {'='})
    decreases |parsed|
  {
    if |parsed| > 0 {
      AcceptedKeysAreTokens(parsed[1..]);
      match parsed[0]
      case Malformed =>
      case BadValue =>
      case Pair(k, v) =>
        KeysOfCons(k, v, Accepted(parsed[1..]));
    }
  }

  /** Keys already present keep their values, and the keys added are exactly
      the accepted ones. */
  lemma {:induction false} ParseItemsKeys(parsed: seq<Item>, cfg: Config)
    ensures var r := ParseItems(parsed, cfg);
      && r.Keys == cfg.Keys + KeysOf(Accepted(parsed))
      && (forall k :: k in cfg ==> r[k] == cfg[k])
    decreases |parsed|
  {
    if |parsed| > 0 {
      match parsed[0]
      case Malformed =>
        ParseItemsKeys(parsed[1..], cfg);
      case BadValue =>
      case Pair(k, v) =>
        ParseItemsKeys(parsed[1..], if k in cfg then cfg else cfg[k := v]);
        KeysOfCons(k, v, Accepted(parsed[1..]));
    }
  }

  /** The value a configuration gives to every key that first occurs among
      `pairs` at position `i` and was not in `cfg` before. */
  ghost predicate FirstOccurrencesKept(pairs: seq<(string, int)>, cfg: Config, r: Config) {
    forall i :: 0 <= i < |pairs| && pairs[i].0 !in cfg && FirstOccurrence(pairs, i) ==>
      pairs[i].0 in r && r[pairs[i].0] == pairs[i].1
  }

  /** A key not present before gets the value of its first accepted
      occurrence: later duplicates never replace it. */
  lemma {:induction false} ParseItemsFirstWins(parsed: seq<Item>, cfg: Config)
    ensures FirstOccurrencesKept(Accepted(parsed), cfg, ParseItems(parsed, cfg))
    decreases |parsed|
  {
    if |parsed| > 0 {
      match parsed[0]
      case Malformed =>
        ParseItemsFirstWins(parsed[1..], cfg);
        assert Accepted(parsed) == Accepted(parsed[1..]);
        assert ParseItems(parsed, cfg) == ParseItems(parsed[1..], cfg);
      case BadValue =>
      case Pair(k, v) =>
        var cfg' := if k in cfg then cfg else cfg[k := v];
        ParseItemsFirstWins(parsed[1..], cfg');
        ParseItemsKeys(parsed[1..], cfg');
        assert Accepted(parsed) == [(k, v)] + Accepted(parsed[1..]);
        assert ParseItems(parsed, cfg) == ParseItems(parsed[1..], cfg');
        FirstWinsCons(k, v, Accepted(parsed[1..]), cfg, ParseItems(parsed, cfg));
    }
  }

  /** The step of `ParseItemsFirstWins` for an accepted pair at the front. */
  lemma {:induction false} FirstWinsCons(k: string, v: int, rest: seq<(string, int)>, cfg: Config, r: Config)
    requires var cfg' := if k in cfg then cfg else cfg[k := v];
      && (forall key :: key in cfg' ==> key in r && r[key] == cfg'[key])
      && FirstOccurrencesKept(rest, cfg', r)
    ensures FirstOccurrencesKept([(k, v)] + rest, cfg, r)
  {
    var cfg' := if k in cfg then cfg else cfg[k := v];
    var all := [(k, v)] + rest;
    forall i | 0 <= i < |all| && all[i].0 !in cfg && FirstOccurrence(all, i)
      ensures all[i].0 in r && r[all[i].0] == all[i].1
    {
      if i == 0 {
        assert all[0] == (k, v) && k in cfg';
      } else {
        FirstOccurrenceInTail(k, v, rest, i);
        assert rest[i - 1].0 !in cfg';
      }
    }
  }

  /** A first occurrence after the front pair is a first occurrence in the
      tail, under a different key from the front one. */
  lemma {:induction false} FirstOccurrenceInTail(k: string, v: int, rest: seq<(string, int)>, i: nat)
    requires 0 < i <= |rest| && FirstOccurrence([(k, v)] + rest, i)
    ensures rest[i - 1] == ([(k, v)] + rest)[i]
    ensures rest[i - 1].0 != k && FirstOccurrence(rest, i - 1)
  {
    var all := [(k, v)] + rest;
    assert all[0].0 == k;
    forall j | 0 <= j < i - 1 ensures rest[j].0 != rest[i - 1].0 {
      assert rest[j] == all[j + 1];
    }
  }

  /** An item whose value is not an integer ends parsing: neither it nor
      anything after it contributes. */
  lemma {:induction false} AcceptedStopsAtBadValue(items: seq<Item>, j: nat)
    requires j < |items| && items[j] == BadValue
    ensures Accepted(items) == Accepted(items[..j])
    decreases j
  {
    if j == 0 {
      assert Accepted(items[..0]) == [];
    } else {
      AcceptedStopsAtBadValue(items[1..], j - 1);
      var prefix := items[..j];
      assert prefix[0] == items[0];
      assert prefix[1..] == items[1..][..j - 1];
      var first := items[0];
      if first.Pair? {
        assert Accepted(items) == [(first.key, first.value)] + Accepted(items[1..]);
        assert Accepted(prefix) == [(first.key, first.value)] + Accepted(prefix[1..]);
      }
    }
  }

  /** A malformed item is skipped and the items after it are still read. */
  lemma {:induction false} AcceptedSkipsMalformed(items: seq<Item>, j: nat)
    requires j < |items| && items[j] == Malformed
    ensures Accepted(items) == Accepted(items[..j] + items[j + 1..])
    decreases j
  {
    if j == 0 {
      assert items[..0] + items[1..] == items[1..];
    } else {
      AcceptedSkipsMalformed(items[1..], j - 1);
      var without := items[..j] + items[j + 1..];
      assert without[0] == items[0];
      assert without[1..] == items[1..][..j - 1] + items[1..][j..];
    }
  }

  /** The item `key=value` written with `to_string` is read back as that pair. */
  lemma {:induction false} ReadItemOfPair(key: string, value: int)
    requires Tokens.IsToken(key, {'='}) && InIntRange(value)
    ensures ReadItem(key + "=" + IntToString(value)) == Pair(key, value)
  {
    var digits := IntToString(value);
    assert Tokens.IsToken(digits, {'='}) by {
      if value < 0 {
        assert digits == "-" + NatToString(-value);
        assert forall i :: 1 <= i < |digits| ==> digits[i] == NatToString(-value)[i - 1];
      }
    }
    Tokens.SplitJoinRoundTrip([key, digits], '=', {'='});
    assert Tokens.Join([key, digits], '=') == key + "=" + digits;
    StoiToStringRoundTrip(value);
  }

  /** An item without '=' is skipped. */
  lemma {:induction false} ReadItemWithoutEquals(t: string)
    requires Tokens.IsToken(t, {'='})
    ensures ReadItem(t) == Malformed
  {
    Tokens.SplitOfTokenThenRest(t, "", {'='});
    assert t + "" == t;
  }

  /** An item whose value is empty is skipped. */
  lemma {:induction false} ReadItemWithoutValue(k: string)
    requires Tokens.IsToken(k, {'='})
    ensures ReadItem(k + "=") == Malformed
  {
    Tokens.SplitOfTokenThenRest(k, "=", {'='});
    Tokens.SplitOfDelims("=", {'='});
  }

  /** An item with three '='-separated parts is skipped. */
  lemma {:induction false} ReadItemWithTwoEquals(a: string, b: string, c: string)
    requires Tokens.IsToken(a, {'='}) && Tokens.IsToken(b, {'='}) && Tokens.IsToken(c, {'='})
    ensures ReadItem(a + "=" + b + "=" + c) == Malformed
  {
    Tokens.SplitJoinRoundTrip([a, b, c], '=', {'='});
    assert [a, b, c][1..] == [b, c] && [b, c][1..] == [c];
    assert Tokens.Join([b, c], '=') == b + "=" + c;
    assert Tokens.Join([a, b, c], '=') == a + "=" + (b + "=" + c);
    assert a + "=" + (b + "=" + c) == a + "=" + b + "=" + c;
  }

  /** The three item shapes the parser skips: no '=', an empty value, and
      more than one '='. */
  lemma {:induction false} MalformedItems()
    ensures ReadItem("bad") == Malformed
    ensures ReadItem("k=") == Malformed
    ensures ReadItem("a=b=c") == Malformed
  {
    ReadItemWithoutEquals("bad");
    ReadItemWithoutValue("k");
    assert "k" + "=" == "k=";
    ReadItemWithTwoEquals("a", "b", "c");
    assert "a" + "=" + "b" + "=" + "c" == "a=b=c";
  }

  /** An item whose value `stoi` rejects ends the parse. */
  lemma {:induction false} ReadItemWithBadValue(k: string, x: string)
    requires Tokens.IsToken(k, {'='}) && Tokens.IsToken(x, {'='})
    requires !IsDigit(x[0]) && !IsSpace(x[0]) && x[0] != '-' && x[0] != '+'
    ensures ReadItem(k + "=" + x) == BadValue
  {
    Tokens.SplitJoinRoundTrip([k, x], '=', {'='});
    assert Tokens.Join([k, x], '=') == k + "=" + x;
    StoiRejectsNonNumeric(x);
  }

  /** A configuration string written out from items is cut back into them. */
  lemma {:induction false} ParseOfJoinedItems(items: seq<string>)
    requires forall i :: 0 <= i < |items| ==> Tokens.IsToken(items[i], {','})
    ensures ParseCfgStr(Tokens.Join(items, ',')) == ParseItems(ReadItems(items), map[])
  {
    Tokens.SplitJoinRoundTrip(items, ',', {','});
  }

  /** Three comma-free items joined by commas are parsed as their three
      readings, in order. */
  lemma {:induction false} ParseOfThreeItems(i1: string, i2: string, i3: string)
    requires Tokens.IsToken(i1, {','}) && Tokens.IsToken(i2, {','}) && Tokens.IsToken(i3, {','})
    ensures ParseCfgStr(Tokens.Join([i1, i2, i3], ','))
         == ParseItems([ReadItem(i1), ReadItem(i2), ReadItem(i3)], map[])
  {
    ParseOfJoinedItems([i1, i2, i3]);
    ReadThreeItems(i1, i2, i3);
  }

  lemma {:induction false} ReadThreeItems(i1: string, i2: string, i3: string)
    ensures ReadItems([i1, i2, i3]) == [ReadItem(i1), ReadItem(i2), ReadItem(i3)]
  {
    var parsed := ReadItems([i1, i2, i3]);
    assert parsed[0] == ReadItem(i1) && parsed[1] == ReadItem(i2) && parsed[2] == ReadItem(i3);
  }

  /** Worked example `k1=v1,k2=v2`: both pairs are kept when the keys differ,
      and only the first when they are the same. */
  lemma {:induction false} ParseExampleTwoPairs(i1: string, i2: string, k1: string, v1: int, k2: string, v2: int)
    requires Tokens.IsToken(i1, {','}) && Tokens.IsToken(i2, {','})
    requires ReadItem(i1) == Pair(k1, v1) && ReadItem(i2) == Pair(k2, v2)
    ensures k1 != k2 ==> ParseCfgStr(Tokens.Join([i1, i2], ',')) == map[k1 := v1, k2 := v2]
    ensures k1 == k2 ==> ParseCfgStr(Tokens.Join([i1, i2], ',')) == map[k1 := v1]
  {
    ParseOfTwoItems(i1, i2);
    ParseTwoPairs(k1, v1, k2, v2);
  }

  /** Two comma-free items joined by a comma are parsed as their two
      readings, in order. */
  lemma {:induction false} ParseOfTwoItems(i1: string, i2: string)
    requires Tokens.IsToken(i1, {','}) && Tokens.IsToken(i2, {','})
    ensures ParseCfgStr(Tokens.Join([i1, i2], ',')) == ParseItems([ReadItem(i1), ReadItem(i2)], map[])
  {
    ParseOfJoinedItems([i1, i2]);
    ReadTwoItems(i1, i2);
  }

  lemma {:induction false} ReadTwoItems(i1: string, i2: string)
    ensures ReadItems([i1, i2]) == [ReadItem(i1), ReadItem(i2)]
  {
    var parsed := ReadItems([i1, i2]);
    assert parsed[0] == ReadItem(i1) && parsed[1] == ReadItem(i2);
  }

  lemma {:induction false} ParseTwoPairs(k1: string, v1: int, k2: string, v2: int)
    ensures k1 != k2 ==> ParseItems([Pair(k1, v1), Pair(k2, v2)], map[]) == map[k1 := v1, k2 := v2]
    ensures k1 == k2 ==> ParseItems([Pair(k1, v1), Pair(k2, v2)], map[]) == map[k1 := v1]
  {
    var parsed := [Pair(k1, v1), Pair(k2, v2)];
    var first := map[k1 := v1];
    assert parsed[1..] == [Pair(k2, v2)] && [Pair(k2, v2)][1..] == [];
    assert ParseItems(parsed, map[]) == ParseItems([Pair(k2, v2)], first);
    var second := if k2 in first then first else first[k2 := v2];
    assert ParseItems([Pair(k2, v2)], first) == ParseItems([], second);
  }

  /** Worked example `k1=v1,bad,k3=v3`: the malformed item is skipped and
      the pair after it is still read. */
  lemma {:induction false} ParseExampleSkipsMalformed(i1: string, bad: string, i3: string, k1: string, v1: int, k3: string, v3: int)
    requires Tokens.IsToken(i1, {','}) && Tokens.IsToken(bad, {','}) && Tokens.IsToken(i3, {','})
    requires ReadItem(i1) == Pair(k1, v1) && ReadItem(bad) == Malformed && ReadItem(i3) == Pair(k3, v3)
    requires k1 != k3
    ensures ParseCfgStr(Tokens.Join([i1, bad, i3], ',')) == map[k1 := v1, k3 := v3]
  {
    ParseOfThreeItems(i1, bad, i3);
    ParseSkipExample(k1, v1, k3, v3);
  }

  lemma {:induction false} ParseSkipExample(k1: string, v1: int, k3: string, v3: int)
    requires k1 != k3
    ensures ParseItems([Pair(k1, v1), Malformed, Pair(k3, v3)], map[]) == map[k1 := v1, k3 := v3]
  {
    var parsed := [Pair(k1, v1), Malformed, Pair(k3, v3)];
    var first := map[k1 := v1];
    assert parsed[1..] == [Malformed, Pair(k3, v3)];
    assert [Malformed, Pair(k3, v3)][1..] == [Pair(k3, v3)] && [Pair(k3, v3)][1..] == [];
    assert ParseItems(parsed, map[]) == ParseItems([Malformed, Pair(k3, v3)], first);
    assert ParseItems([Malformed, Pair(k3, v3)], first) == ParseItems([Pair(k3, v3)], first);
    assert ParseItems([Pair(k3, v3)], first) == ParseItems([], first[k3 := v3]);
  }

  /** Worked example `k1=v1,k2=x,k3=v3` with `x` not a number: the pair before
      the bad value is kept; the bad item and everything after it are dropped,
      whatever follows. */
  lemma {:induction false} ParseExampleAbortsOnBadValue(i1: string, i2: string, i3: string, k1: string, v1: int)
    requires Tokens.IsToken(i1, {','}) && Tokens.IsToken(i2, {','}) && Tokens.IsToken(i3, {','})
    requires ReadItem(i1) == Pair(k1, v1) && ReadItem(i2) == BadValue
    ensures ParseCfgStr(Tokens.Join([i1, i2, i3], ',')) == map[k1 := v1]
  {
    ParseOfThreeItems(i1, i2, i3);
    ParseAbortExample(k1, v1, ReadItem(i3));
  }

  lemma {:induction false} ParseAbortExample(k1: string, v1: int, third: Item)
    ensures ParseItems([Pair(k1, v1), BadValue, third], map[]) == map[k1 := v1]
  {
    var parsed := [Pair(k1, v1), BadValue, third];
    assert parsed[1..] == [BadValue, third];
    assert ParseItems(parsed, map[]) == ParseItems([BadValue, third], map[k1 := v1]);
  }
}
