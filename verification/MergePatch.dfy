/** JSON merge patch (`json_merge_patch`), against section 2 of RFC 7396. */
module MergePatch {
  import opened Prelude

  datatype Json =
    | Null
    | Bool(b: bool)
    | Num(n: int)
    | Str(s: string)
    | Arr(items: seq<Json>)
    | Obj(members: map<string, Json>)

  // ---------------------------------------------------------------------
  // What the code computes
  // ---------------------------------------------------------------------

  /** The value left in `base` by the patching loop: one pass over the patch's members. */
  function Merged(base: Json, patch: Json): Json
    decreases patch
  {
    if base.Obj? && patch.Obj? then
      Obj(map k | k in base.members.Keys + patch.members.Keys && Keeps(patch, k)
            :: MergedMember(base, patch, k))
    else base
  }

  /** A member survives unless the patch maps it to null. */
  predicate Keeps(patch: Json, k: string)
    requires patch.Obj?
  {
    k in patch.members ==> !patch.members[k].Null?
  }

  function MergedMember(base: Json, patch: Json, k: string): Json
    requires base.Obj? && patch.Obj?
    requires k in base.members.Keys + patch.members.Keys
    decreases patch, 0
  {
    if k !in patch.members then base.members[k]
    else if patch.members[k].Obj? then
      Merged(if k in base.members then base.members[k] else Obj(map[]), patch.members[k])
    else patch.members[k]
  }

  /** The patching loop. Members are visited in an arbitrary order. */
  method JsonMergePatch(base: Json, patch: Json) returns (result: Json)
    ensures result == Merged(base, patch)
    decreases patch
  {
    result := base;
    if base.Obj? && patch.Obj? {
      var b := base.members;
      var todo := patch.members.Keys;
      while todo != {}
        invariant todo <= patch.members.Keys
        invariant b.Keys == set k | k in base.members.Keys + patch.members.Keys
                                    && (if k in patch.members && k !in todo then !patch.members[k].Null?
                                        else k in base.members)
        invariant forall k | k in b ::
                    b[k] == if k in todo || k !in patch.members then base.members[k] else MergedMember(base, patch, k)
        decreases todo
      {
        var k :| k in todo;
        var v := patch.members[k];
        if v.Null? {
          b := b - {k};
        } else if v.Obj? {
          var entry := if k in b then b[k] else Obj(map[]);
          var merged := JsonMergePatch(entry, v);
          b := b[k := merged];
        } else {
          b := b[k := v];
        }
        todo := todo - {k};
      }
      result := Obj(b);
      assert b == Merged(base, patch).members;
    }
  }

  // ---------------------------------------------------------------------
  // Against section 2 of RFC 7396
  // ---------------------------------------------------------------------

  /** MergePatch(Target, Patch) of RFC 7396; an undefined target is represented by null. */
  function RfcMergePatch(target: Json, patch: Json): Json
    decreases patch
  {
    if patch.Obj? then
      var t := if target.Obj? then target.members else map[];
      Obj(map k | k in t.Keys + patch.members.Keys && Keeps(patch, k)
            :: if k !in patch.members then t[k]
               else RfcMergePatch(if k in t then t[k] else Null, patch.members[k]))
    else patch
  }

  /** No object of the patch meets a non-object value of the base. */
  ghost predicate ObjectsMeetObjects(base: Json, patch: Json)
    decreases patch
  {
    if patch.Obj? then
      base.Obj? &&
      forall k | k in patch.members && patch.members[k].Obj? && k in base.members
        :: ObjectsMeetObjects(base.members[k], patch.members[k])
    else base == patch
  }

  lemma {:induction false} EmptyObjectAgrees(patch: Json)
    requires patch.Obj?
    ensures Merged(Obj(map[]), patch) == RfcMergePatch(Null, patch)
    decreases patch
  {
    forall k | k in patch.members && patch.members[k].Obj? {
      EmptyObjectAgrees(patch.members[k]);
    }
    assert Merged(Obj(map[]), patch).members == RfcMergePatch(Null, patch).members;
  }

  /** A member the patch treats alike in both definitions. */
  lemma {:induction false} MemberAgrees(base: Json, patch: Json, k: string)
    requires base.Obj? && patch.Obj? && k in patch.members && !patch.members[k].Null?
    requires patch.members[k].Obj? && k in base.members ==>
               Merged(base.members[k], patch.members[k]) == RfcMergePatch(base.members[k], patch.members[k])
    ensures MergedMember(base, patch, k) == RfcMergePatch(base, patch).members[k]
  {
    if patch.members[k].Obj? && k !in base.members {
      EmptyObjectAgrees(patch.members[k]);
    }
  }

  /** The code computes RFC 7396 exactly when objects of the patch meet objects of the base. */
  lemma {:induction false} AgreesWithRfcIff(base: Json, patch: Json)
    ensures Merged(base, patch) == RfcMergePatch(base, patch) <==> ObjectsMeetObjects(base, patch)
    decreases patch
  {
    if base.Obj? && patch.Obj? {
      forall k | k in patch.members && patch.members[k].Obj? && k in base.members
        ensures Merged(base.members[k], patch.members[k]) == RfcMergePatch(base.members[k], patch.members[k])
                <==> ObjectsMeetObjects(base.members[k], patch.members[k])
      {
        AgreesWithRfcIff(base.members[k], patch.members[k]);
      }
      var m, r := Merged(base, patch).members, RfcMergePatch(base, patch).members;
      if ObjectsMeetObjects(base, patch) {
        forall k | k in m ensures m[k] == r[k] {
          assert m[k] == MergedMember(base, patch, k);
          if k in patch.members { MemberAgrees(base, patch, k); }
        }
        assert m == r;
      } else {
        var k :| k in patch.members && patch.members[k].Obj? && k in base.members
                 && !ObjectsMeetObjects(base.members[k], patch.members[k]);
        assert m[k] == MergedMember(base, patch, k) == Merged(base.members[k], patch.members[k]);
        assert r[k] == RfcMergePatch(base.members[k], patch.members[k]);
      }
    }
  }

  /** The shortcut is observable: an object cannot replace a string through a patch. */
  lemma ShortcutIsObservable()
    ensures var base := Obj(map["a" := Str("x")]);
            var patch := Obj(map["a" := Obj(map["b" := Num(1)])]);
            Merged(base, patch) == base && RfcMergePatch(base, patch) != base
  {
    var base := Obj(map["a" := Str("x")]);
    var patch := Obj(map["a" := Obj(map["b" := Num(1)])]);
    assert Merged(base, patch).members == base.members;
    assert RfcMergePatch(base, patch).members["a"].Obj?;
  }

  // ---------------------------------------------------------------------
  // Properties on all inputs
  // ---------------------------------------------------------------------

  /** Applying the same patch twice changes nothing more. */
  lemma {:induction false} Idempotent(base: Json, patch: Json)
    ensures Merged(Merged(base, patch), patch) == Merged(base, patch)
    decreases patch
  {
    if base.Obj? && patch.Obj? {
      var once := Merged(base, patch);
      var twice := Merged(once, patch);
      forall k | k in once.members ensures k in twice.members && twice.members[k] == once.members[k] {
        assert once.members[k] == MergedMember(base, patch, k);
        assert twice.members[k] == MergedMember(once, patch, k);
        if k in patch.members && patch.members[k].Obj? {
          Idempotent(if k in base.members then base.members[k] else Obj(map[]), patch.members[k]);
        }
      }
      assert twice.members == once.members;
    }
  }

  /** The value at the end of a path of member names, if the path exists. */
  function At(v: Json, path: seq<string>): Option<Json>
    decreases |path|
  {
    if path == [] then Some(v)
    else if v.Obj? && path[0] in v.members then At(v.members[path[0]], path[1..])
    else None
  }

  /** The patch says something about `path`, about an ancestor of it, or about something below it. */
  ghost predicate Mentions(patch: Json, path: seq<string>)
    decreases |path|
  {
    patch.Obj? &&
    (path == [] ||
     (path[0] in patch.members &&
      (!patch.members[path[0]].Obj? || Mentions(patch.members[path[0]], path[1..]))))
  }

  lemma {:induction false} UnmentionedPathsKeepTheirValue(base: Json, patch: Json, path: seq<string>)
    requires !Mentions(patch, path)
    ensures At(Merged(base, patch), path) == At(base, path)
    decreases |path|
  {
    if base.Obj? && patch.Obj? && path != [] && path[0] in patch.members {
      var k := path[0];
      UnmentionedPathsKeepTheirValue(if k in base.members then base.members[k] else Obj(map[]),
                                     patch.members[k], path[1..]);
    }
  }

  /** Patching never introduces a null member: a null of the result was there before. */
  lemma {:induction false} NoNullIsAdded(base: Json, patch: Json, path: seq<string>)
    requires At(Merged(base, patch), path) == Some(Null)
    ensures At(base, path) == Some(Null)
    decreases |path|
  {
    if base.Obj? && patch.Obj? {
      var k := path[0];
      assert At(Merged(base, patch), path) == At(Merged(base, patch).members[k], path[1..]);
      if k in patch.members {
        if patch.members[k].Obj? {
          NoNullIsAdded(if k in base.members then base.members[k] else Obj(map[]), patch.members[k], path[1..]);
        }
      }
    }
  }

  /** What the patch sets at a path where it meets only objects is what the result holds there;
      a null erases the path. */
  lemma {:induction false} MentionedPathsTakeThePatchValue(base: Json, patch: Json, path: seq<string>)
    requires ObjectsMeetObjects(base, patch) && patch.Obj?
    requires path != [] && At(patch, path).Some? && !At(patch, path).value.Obj?
    ensures At(Merged(base, patch), path) ==
            if At(patch, path).value.Null? then None else At(patch, path)
    decreases |path|
  {
    var k := path[0];
    if patch.members[k].Obj? {
      var below := if k in base.members then base.members[k] else Obj(map[]);
      assert ObjectsMeetObjects(below, patch.members[k]);
      MentionedPathsTakeThePatchValue(below, patch.members[k], path[1..]);
    } else {
      assert path[1..] == [];
    }
  }

  /** An object of the patch does not replace a value that is not an object: the value stays, at any depth. */
  lemma {:induction false} ValuesUnderObjectsStay(base: Json, patch: Json, path: seq<string>)
    requires At(patch, path).Some? && At(patch, path).value.Obj?
    requires At(base, path).Some? && !At(base, path).value.Obj?
    ensures At(Merged(base, patch), path) == At(base, path)
    decreases |path|
  {
    if path != [] {
      ValuesUnderObjectsStay(base.members[path[0]], patch.members[path[0]], path[1..]);
    }
  }

  /** A patch that is not an object changes nothing, where RFC 7396 would replace the whole value. */
  lemma OnlyObjectsPatch(base: Json, patch: Json)
    requires !patch.Obj?
    ensures Merged(base, patch) == base && RfcMergePatch(base, patch) == patch
  {
  }
}
