/** What a rule on the items of a list decides. */
module JsonItemLaws {
  import opened Json
  import opened Paths
  import opened Rules
  import opened Contexts
  import opened PatternLaws
  import opened TypeRules
  import opened JsonAcceptance
  import opened JsonPlainLaws
  import opened JsonTypeLaws

  // `Type` for the items of the list at a path, and nothing else.
  function ItemsCategory(path: Path): Category {
    Category(BODY, [(path + [StarIndex], RuleList([Type], And, false))])
  }

  lemma ItemsPattern(path: Path)
    requires path != [] && Addressable(path)
    ensures Addressable(path + [StarIndex])
  {
  }

  lemma NothingAtList(path: Path, c: Context)
    requires c.matchers == ItemsCategory(path)
    ensures !c.MatcherIsDefined(path) && !c.KeysAreMatched(path) && MatchersForExactPath(c.matchers, path) == []
  {
    OneRule(c.matchers, path, c.first(Exact(path, c.turns)));
  }

  lemma ItemIsCovered(path: Path, i: nat)
    requires path != [] && Addressable(path) && i < USIZE_LIMIT
    ensures Addressable(path + [Index(i)]) && CoversAll(path + [StarIndex], path + [Index(i)])
  {
    var pattern, below := path + [StarIndex], path + [Index(i)];
    forall j | 0 <= j < |pattern| ensures Covers(pattern[j], below[j]) {
      assert j < |path| ==> pattern[j] == path[j] == below[j];
    }
  }

  // From an item on, `Type` is the only rule.
  lemma ItemsOnlyType(path: Path, i: nat, c: Context)
    requires path != [] && Addressable(path) && i < USIZE_LIMIT && c.matchers == ItemsCategory(path)
    ensures OnlyType(c, path + [Index(i)])
  {
    ItemsPattern(path);
    ItemIsCovered(path, i);
    forall p: Path, pick: nat | path + [Index(i)] <= p ensures OnlyTypeAt(c.matchers, p, pick) {
      BelowExactly(path + [StarIndex], path + [Index(i)], p);
      OneRule(c.matchers, p, pick);
      assert Type in c.matchers.rules[0].1.rules;
    }
    OnlyTypeEverywhere(c, path + [Index(i)]);
  }

  // As many items as are expected, each of the shape of its own.
  predicate ItemsHaveShape(config: DiffConfig, e: Value, a: Value)
    requires e.Array?
  {
    a.Array? && |e.items| == |a.items| && forall i | 0 <= i < |e.items| :: SameShape(config, e.items[i], a.items[i])
  }

  /** With `Type` for the items of a list, it is accepted when it has as many items and each has the shape expected at
    * its place: the rule cascades below the items, and does not reach the list itself. */
  lemma ItemsExactly(path: Path, e: Value, a: Value, c: Context)
    requires path != [] && Addressable(path) && c.matchers == ItemsCategory(path)
    requires e.Array? && |e.items| <= USIZE_LIMIT
    ensures Accepts(path, e, a, c) <==> ItemsHaveShape(c.config, e, a)
  {
    if a.Array? {
      NothingAtList(path, c);
      PlainListAccepted(path, e, a, c);
      forall i | 0 <= i < |e.items| && i < |a.items|
        ensures ItemAccepted(i, path, e, a, c) <==> SameShape(c.config, e.items[i], a.items[i])
      {
        IndexToken(i);
        ItemsOnlyType(path, i, c);
        TypeExactly(path + [Index(i)], e.items[i], a.items[i], c);
      }
    }
  }

  // Nothing is defined for the other entries of the map around the list.
  lemma NothingBeside(path: Path, key: string, other: string, c: Context)
    requires path != [] && Addressable(path) && TokenOf(key).Field? && key != other
    requires c.matchers == ItemsCategory(JoinPath(path, key))
    ensures NothingBelow(c, JoinPath(path, other))
  {
    var pattern, beside := JoinPath(path, key) + [StarIndex], JoinPath(path, other);
    assert pattern[|path|] == Field(key) && beside[|path|] == TokenOf(other) != Field(key);
    forall p: Path | beside <= p ensures !MatcherIsDefined(c.matchers, p) && MatchersForExactPath(c.matchers, p) == [] {
      MatchesPathExactly(pattern, p);
      assert p[|path|] == TokenOf(other);
      JoinedToken(other);
      if |pattern| <= |p| {
        WeighsExactly(Field(key), TokenOf(other));
      }
      OneRule(c.matchers, p, 0);
    }
  }

  lemma EntryBesideList(path: Path, key: string, k: string, e: Value, a: Value, c: Context)
    requires path != [] && Addressable(path) && TokenOf(key).Field? && c.matchers == ItemsCategory(JoinPath(path, key))
    requires k == key ==> e.Array? && |e.items| <= USIZE_LIMIT
    ensures Accepts(JoinPath(path, k), e, a, c.Under(k)) <==>
      if k == key then ItemsHaveShape(c.config, e, a) else PlainlyAgree(c.config, e, a)
  {
    if k == key {
      JoinedToken(key);
      ItemsExactly(JoinPath(path, key), e, a, c.Under(key));
    } else {
      NothingBeside(path, key, k, c);
      PlainExactly(JoinPath(path, k), e, a, c.Under(k));
    }
  }

  /** In a map, the rule on the items of one of its lists leaves the other entries to be compared as they are. */
  lemma EntryItemsExactly(path: Path, key: string, e: Value, a: Value, c: Context)
    requires path != [] && Addressable(path) && TokenOf(key).Field? && c.matchers == ItemsCategory(JoinPath(path, key))
    requires e.Object? && key in e.entries && e.entries[key].Array? && |e.entries[key].items| <= USIZE_LIMIT
    ensures Accepts(path, e, a, c) <==>
      && a.Object?
      && (if c.config == NoUnexpectedKeys then e.entries.Keys == a.entries.Keys else e.entries.Keys <= a.entries.Keys)
      && (key in a.entries ==> ItemsHaveShape(c.config, e.entries[key], a.entries[key]))
      && forall k | k in e.entries && k in a.entries && k != key :: PlainlyAgree(c.config, e.entries[k], a.entries[k])
  {
    if a.Object? {
      OneRule(c.matchers, path, c.first(Exact(path, c.turns)));
      PlainMapAccepted(path, e, a, c);
      PlainKeysExactly(path, c, e.entries.Keys, a.entries.Keys);
      forall k | k in e.entries && k in a.entries
        ensures EntryAccepted(k, path, e, a, c) <==>
          if k == key then ItemsHaveShape(c.config, e.entries[k], a.entries[k]) else PlainlyAgree(c.config, e.entries[k], a.entries[k])
      {
        EntryBesideList(path, key, k, e.entries[k], a.entries[k], c);
      }
    }
  }
}
