/**
 * `isEqualFormattedText`, `areEntityArraysEqual` and `areEntitiesEqual`
 * (src/util/textWithEntitiesToAST.ts): two formatted texts are equal when
 * their texts are equal and their entity lists hold the same entities in
 * any order.  Two entities are equal when type, offset and length agree and,
 * for the three types that carry one, the `url`, `language` or `documentId`.
 */
module EntityEquality {
  import opened Ast

  /** What `areEntitiesEqual` looks at in an entity. */
  datatype EntityKey = EntityKey(
    kind: NodeType,
    offset: nat,
    length: nat,
    url: Option<string>,
    language: Option<string>,
    documentId: Option<string>)

  function Key(e: Entity): EntityKey
  {
    EntityKey(e.kind, e.offset, e.length,
              if e.kind == TextUrl then e.url else None,
              if e.kind == Pre then e.language else None,
              if e.kind == CustomEmoji then e.documentId else None)
  }

  /** `areEntitiesEqual`. */
  predicate AreEntitiesEqual(a: Entity, b: Entity)
  {
    a.kind == b.kind && a.offset == b.offset && a.length == b.length
    && (a.kind != TextUrl || a.url == b.url)
    && (a.kind != Pre || a.language == b.language)
    && (a.kind != CustomEmoji || a.documentId == b.documentId)
  }

  /** Entity equality is equality of keys, so it is an equivalence. */
  lemma EntitiesEqualIffSameKey(a: Entity, b: Entity)
    ensures AreEntitiesEqual(a, b) <==> Key(a) == Key(b)
  {
  }

  function Keys(s: seq<Entity>): (r: seq<EntityKey>)
    ensures |r| == |s| && forall i :: 0 <= i < |s| ==> r[i] == Key(s[i])
  {
    seq(|s|, i requires 0 <= i < |s| => Key(s[i]))
  }

  lemma KeysAppend(a: seq<Entity>, b: seq<Entity>)
    ensures Keys(a + b) == Keys(a) + Keys(b)
  {
  }

  /** `bCopy.findIndex((entityB) => areEntitiesEqual(entityA, entityB))`; `None` is `-1`. */
  function FindEqual(s: seq<Entity>, x: Entity): (r: Option<nat>)
    ensures r.None? <==> Key(x) !in Keys(s)
    ensures r.Some? ==> r.value < |s| && Key(s[r.value]) == Key(x)
                        && forall j :: 0 <= j < r.value ==> Key(s[j]) != Key(x)
    decreases |s|
  {
    if |s| == 0 then None
    else if AreEntitiesEqual(x, s[0]) then Some(0)
    else
      var r := FindEqual(s[1..], x);
      assert Keys(s) == [Key(s[0])] + Keys(s[1..]);
      if r.None? then None else Some(r.value + 1)
  }

  /**
   * `areEntityArraysEqual`: every entity of `a` is matched with a distinct
   * equal entity of `b`, that is, the keys of `a` form a sub-multiset of the
   * keys of `b` (the caller compares the lengths first).
   */
  method AreEntityArraysEqual(a: seq<Entity>, b: seq<Entity>) returns (r: bool)
    ensures r <==> multiset(Keys(a)) <= multiset(Keys(b))
  {
    var bCopy := b;
    var i := 0;
    while i < |a|
      invariant 0 <= i <= |a|
      invariant multiset(Keys(a[..i])) + multiset(Keys(bCopy)) == multiset(Keys(b))
    {
      var indexInB := FindEqual(bCopy, a[i]);
      PrefixKeys(a, i);
      if indexInB.None? {
        NotSubMultiset(a, i, b, bCopy);
        return false;
      }
      var j := indexInB.value;
      RemoveAt(bCopy, j);
      bCopy := bCopy[..j] + bCopy[j + 1..];
      i := i + 1;
    }
    assert a[..i] == a;
    return true;
  }

  lemma PrefixKeys(a: seq<Entity>, i: nat)
    requires i < |a|
    ensures multiset(Keys(a[..i + 1])) == multiset(Keys(a[..i])) + multiset{Key(a[i])}
  {
    assert a[..i + 1] == a[..i] + [a[i]];
    KeysAppend(a[..i], [a[i]]);
  }

  /** `splice(j, 1)` removes one copy of the key at `j`. */
  lemma RemoveAt(s: seq<Entity>, j: nat)
    requires j < |s|
    ensures multiset(Keys(s[..j] + s[j + 1..])) + multiset{Key(s[j])} == multiset(Keys(s))
  {
    assert s == s[..j] + [s[j]] + s[j + 1..];
    KeysAppend(s[..j] + [s[j]], s[j + 1..]);
    KeysAppend(s[..j], [s[j]]);
    KeysAppend(s[..j], s[j + 1..]);
  }

  /** An entity of `a` with no partner left in `bCopy` has more copies in `a` than in `b`. */
  lemma NotSubMultiset(a: seq<Entity>, i: nat, b: seq<Entity>, bCopy: seq<Entity>)
    requires i < |a|
    requires multiset(Keys(a[..i])) + multiset(Keys(bCopy)) == multiset(Keys(b))
    requires Key(a[i]) !in Keys(bCopy)
    ensures !(multiset(Keys(a)) <= multiset(Keys(b)))
  {
    var k := Key(a[i]);
    assert a == a[..i] + [a[i]] + a[i + 1..];
    KeysAppend(a[..i] + [a[i]], a[i + 1..]);
    KeysAppend(a[..i], [a[i]]);
    assert multiset(Keys(b))[k] == multiset(Keys(a[..i]))[k];
    assert multiset(Keys(a))[k] >= multiset(Keys(a[..i]))[k] + 1;
  }

  /** A sub-multiset of the same size is the whole multiset. */
  lemma SubMultisetOfSameSize<T>(x: multiset<T>, y: multiset<T>)
    requires x <= y && |x| == |y|
    ensures x == y
  {
    var d := y - x;
    assert y == x + d;
    assert |d| == 0;
  }

  /** What `isEqualFormattedText` decides. */
  predicate EqualFormattedText(a: Option<FormattedText>, b: Option<FormattedText>)
  {
    a.Some? && b.Some? && a.value.text == b.value.text
    && (a.value.entities.None? == b.value.entities.None?)
    && (a.value.entities.Some? ==>
          multiset(Keys(a.value.entities.value)) == multiset(Keys(b.value.entities.value)))
  }

  /** `isEqualFormattedText`. */
  method IsEqualFormattedText(a: Option<FormattedText>, b: Option<FormattedText>) returns (r: bool)
    ensures r <==> EqualFormattedText(a, b)
  {
    if a.None? || b.None? {
      return false;
    }
    if a.value.text != b.value.text {
      return false;
    }
    if a.value.entities.None? && b.value.entities.None? {
      return true;
    }
    if a.value.entities.None? || b.value.entities.None? {
      return false;
    }
    var ea, eb := a.value.entities.value, b.value.entities.value;
    if |ea| != |eb| {
      assert |multiset(Keys(ea))| != |multiset(Keys(eb))|;
      return false;
    }
    r := AreEntityArraysEqual(ea, eb);
    if r {
      SubMultisetOfSameSize(multiset(Keys(ea)), multiset(Keys(eb)));
    }
  }

  /** A text with entities equals itself, and equality does not depend on the argument order. */
  lemma EqualFormattedTextEquivalence(a: Option<FormattedText>, b: Option<FormattedText>, c: Option<FormattedText>)
    ensures a.Some? ==> EqualFormattedText(a, a)
    ensures EqualFormattedText(a, b) ==> EqualFormattedText(b, a)
    ensures EqualFormattedText(a, b) && EqualFormattedText(b, c) ==> EqualFormattedText(a, c)
  {
  }

  /** Reordering the entities of a text gives an equal text. */
  lemma {:induction false} ReorderedEntitiesEqual(t: Utf16, ea: seq<Entity>, eb: seq<Entity>)
    requires multiset(ea) == multiset(eb)
    ensures EqualFormattedText(Some(FormattedText(t, Some(ea))), Some(FormattedText(t, Some(eb))))
  {
    PermutedKeys(ea, eb);
  }

  lemma {:induction false} PermutedKeys(ea: seq<Entity>, eb: seq<Entity>)
    requires multiset(ea) == multiset(eb)
    ensures multiset(Keys(ea)) == multiset(Keys(eb))
    decreases |ea|
  {
    if |ea| > 0 {
      var x := ea[0];
      assert x in multiset(eb);
      var j :| 0 <= j < |eb| && eb[j] == x;
      var rest := eb[..j] + eb[j + 1..];
      assert eb == eb[..j] + [x] + eb[j + 1..];
      assert ea == [x] + ea[1..];
      assert multiset(eb) == multiset(eb[..j]) + multiset{x} + multiset(eb[j + 1..]);
      assert multiset(ea) == multiset{x} + multiset(ea[1..]);
      assert multiset(rest) == multiset(eb[..j]) + multiset(eb[j + 1..]);
      assert multiset(ea[1..]) == multiset(ea) - multiset{x};
      assert multiset(rest) == multiset(eb) - multiset{x};
      assert multiset(ea[1..]) == multiset(rest);
      PermutedKeys(ea[1..], rest);
      KeysAppend([x], ea[1..]);
      KeysAppend(eb[..j] + [x], eb[j + 1..]);
      KeysAppend(eb[..j], [x]);
      KeysAppend(eb[..j], eb[j + 1..]);
    }
  }

  /**
   * A missing entity list and an empty one are not equal: `!a.entities`
   * is false for an empty array.
   */
  lemma MissingAndEmptyEntitiesDiffer(t: Utf16)
    ensures !EqualFormattedText(Some(FormattedText(t, None)), Some(FormattedText(t, Some([]))))
  {
  }
}
