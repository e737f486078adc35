/** Comparing JSON without rules: equality, or subsumption when unexpected keys are allowed. */
module JsonPlainLaws {
  import opened Json
  import opened Paths
  import opened Rules
  import opened Contexts
  import opened JsonAcceptance

  // The actual value holds at least the keys expected at every level, and is equal elsewhere.
  predicate Subsumes(e: Value, a: Value) {
    if e.Object? then
      a.Object? && forall k | k in e.entries :: k in a.entries && Subsumes(e.entries[k], a.entries[k])
    else if e.Array? then
      a.Array? && |e.items| == |a.items| && forall i | 0 <= i < |e.items| :: Subsumes(e.items[i], a.items[i])
    else e == a
  }

  lemma PlainKeysExactly(path: Path, c: Context, expected: set<string>, actual: set<string>)
    requires !c.KeysAreMatched(path) && MatchersForExactPath(c.matchers, path) == []
    ensures KeysVerdict(c, path, expected, actual).Ok? <==> if c.config == NoUnexpectedKeys then expected == actual else expected <= actual
  {
  }

  /** Without rules at or below it and allowing unexpected keys, a document is accepted exactly when it is subsumed. */
  lemma {:induction false} SubsumptionExactly(path: Path, e: Value, a: Value, c: Context)
    requires NothingBelow(c, path) && c.config == AllowUnexpectedKeys
    ensures Accepts(path, e, a, c) <==> Subsumes(e, a)
    decreases e
  {
    if e.Object? && a.Object? {
      PlainMapAccepted(path, e, a, c);
      PlainKeysExactly(path, c, e.entries.Keys, a.entries.Keys);
      forall k | k in e.entries && k in a.entries
        ensures EntryAccepted(k, path, e, a, c) <==> Subsumes(e.entries[k], a.entries[k])
      {
        NothingFurtherBelow(c, path, k);
        SubsumptionExactly(JoinPath(path, k), e.entries[k], a.entries[k], c.Under(k));
      }
    } else if e.Array? && a.Array? {
      PlainListAccepted(path, e, a, c);
      forall i | 0 <= i < |e.items| && i < |a.items|
        ensures ItemAccepted(i, path, e, a, c) <==> Subsumes(e.items[i], a.items[i])
      {
        NothingFurtherBelow(c, path, ShowNat(i));
        SubsumptionExactly(JoinPath(path, ShowNat(i)), e.items[i], a.items[i], c);
      }
    }
  }

  /** Without rules at or below it and no unexpected keys, a document is accepted exactly when it is equal. */
  lemma {:induction false} EqualityExactly(path: Path, e: Value, a: Value, c: Context)
    requires NothingBelow(c, path) && c.config == NoUnexpectedKeys
    ensures Accepts(path, e, a, c) <==> e == a
    decreases e
  {
    if e.Object? && a.Object? {
      PlainMapAccepted(path, e, a, c);
      PlainKeysExactly(path, c, e.entries.Keys, a.entries.Keys);
      forall k | k in e.entries && k in a.entries
        ensures EntryAccepted(k, path, e, a, c) <==> e.entries[k] == a.entries[k]
      {
        NothingFurtherBelow(c, path, k);
        EqualityExactly(JoinPath(path, k), e.entries[k], a.entries[k], c.Under(k));
      }
    } else if e.Array? && a.Array? {
      PlainListAccepted(path, e, a, c);
      forall i | 0 <= i < |e.items| && i < |a.items|
        ensures ItemAccepted(i, path, e, a, c) <==> e.items[i] == a.items[i]
      {
        NothingFurtherBelow(c, path, ShowNat(i));
        EqualityExactly(JoinPath(path, ShowNat(i)), e.items[i], a.items[i], c);
      }
    }
  }

  // What is accepted where no rule is defined.
  predicate PlainlyAgree(config: DiffConfig, e: Value, a: Value) {
    if config == NoUnexpectedKeys then e == a else Subsumes(e, a)
  }

  lemma PlainExactly(path: Path, e: Value, a: Value, c: Context)
    requires NothingBelow(c, path)
    ensures Accepts(path, e, a, c) <==> PlainlyAgree(c.config, e, a)
  {
    if c.config == NoUnexpectedKeys {
      EqualityExactly(path, e, a, c);
    } else {
      SubsumptionExactly(path, e, a, c);
    }
  }

  // ---- Subsumption is a partial order

  lemma {:induction false} SubsumesReflexive(v: Value)
    ensures Subsumes(v, v)
  {
    if v.Object? {
      forall k | k in v.entries ensures Subsumes(v.entries[k], v.entries[k]) {
        SubsumesReflexive(v.entries[k]);
      }
    } else if v.Array? {
      forall i | 0 <= i < |v.items| ensures Subsumes(v.items[i], v.items[i]) {
        SubsumesReflexive(v.items[i]);
      }
    }
  }

  lemma {:induction false} SubsumesTransitive(u: Value, v: Value, w: Value)
    requires Subsumes(u, v) && Subsumes(v, w)
    ensures Subsumes(u, w)
  {
    if u.Object? {
      forall k | k in u.entries ensures k in w.entries && Subsumes(u.entries[k], w.entries[k]) {
        SubsumesTransitive(u.entries[k], v.entries[k], w.entries[k]);
      }
    } else if u.Array? {
      forall i | 0 <= i < |u.items| ensures Subsumes(u.items[i], w.items[i]) {
        SubsumesTransitive(u.items[i], v.items[i], w.items[i]);
      }
    }
  }

  lemma {:induction false} SubsumesAntisymmetric(u: Value, v: Value)
    requires Subsumes(u, v) && Subsumes(v, u)
    ensures u == v
  {
    if u.Object? {
      assert u.entries.Keys == v.entries.Keys;
      forall k | k in u.entries ensures u.entries[k] == v.entries[k] {
        SubsumesAntisymmetric(u.entries[k], v.entries[k]);
      }
      assert u.entries == v.entries;
    } else if u.Array? {
      forall i | 0 <= i < |u.items| ensures u.items[i] == v.items[i] {
        SubsumesAntisymmetric(u.items[i], v.items[i]);
      }
    }
  }
}
