/** The layer order of `pull`: downloads complete in any order and are put back into manifest order by digest. */
module LayerOrder {
  import opened Prelude
  import opened ImageLayers

  /** The digest of a layer's bytes. */
  type Digest = Archive -> string

  function ByDigest(layers: seq<Archive>, digest: Digest): map<string, Archive> {
    if layers == [] then map[]
    else
      var last := layers[|layers| - 1];
      ByDigest(layers[..|layers| - 1], digest)[digest(last) := last]
  }

  /** The layers found for the manifest's digests; each is handed out once. */
  function Taken(m: map<string, Archive>, manifest: seq<string>): seq<Archive> {
    if manifest == [] then []
    else if manifest[0] in m then [m[manifest[0]]] + Taken(m - {manifest[0]}, manifest[1..])
    else Taken(m, manifest[1..])
  }

  function Leftover(m: map<string, Archive>, manifest: seq<string>): map<string, Archive> {
    m - (set d | d in manifest)
  }

  predicate Distinct(s: seq<string>) {
    forall i, j | 0 <= i < j < |s| :: s[i] != s[j]
  }

  /** The values of a map, in the order of some list of its keys. */
  predicate Lists(m: map<string, Archive>, keys: seq<string>, values: seq<Archive>) {
    |values| == |keys| && Distinct(keys) && (set d | d in keys) == m.Keys
    && forall i | 0 <= i < |keys| :: keys[i] in m && values[i] == m[keys[i]]
  }

  /** Manifest order first, then what the manifest does not mention, in no particular order. */
  ghost predicate IsRestored(layers: seq<Archive>, manifest: seq<string>, digest: Digest, r: seq<Archive>) {
    var m := ByDigest(layers, digest);
    exists keys, values :: Lists(Leftover(m, manifest), keys, values) && r == Taken(m, manifest) + values
  }

  method RestoreOrder(layers: seq<Archive>, manifest: Option<seq<string>>, digest: Digest) returns (r: seq<Archive>)
    ensures manifest.None? ==> r == layers
    ensures manifest.Some? ==> IsRestored(layers, manifest.value, digest, r)
  {
    if manifest.None? { return layers; }
    var byDigest := Index(layers, digest);
    var ordered, rest := TakeInOrder(byDigest, manifest.value);
    var keys, values := ListAll(rest);
    r := ordered + values;
  }

  method Index(layers: seq<Archive>, digest: Digest) returns (byDigest: map<string, Archive>)
    ensures byDigest == ByDigest(layers, digest)
  {
    byDigest := map[];
    for i := 0 to |layers|
      invariant byDigest == ByDigest(layers[..i], digest)
    {
      assert layers[..i + 1][..i] == layers[..i];
      byDigest := byDigest[digest(layers[i]) := layers[i]];
    }
    assert layers[..|layers|] == layers;
  }

  /** The loop over the manifest: a layer that is found is taken out of the map. */
  method TakeInOrder(all: map<string, Archive>, manifest: seq<string>)
    returns (ordered: seq<Archive>, rest: map<string, Archive>)
    ensures ordered == Taken(all, manifest) && rest == Leftover(all, manifest)
  {
    ordered, rest := [], all;
    for i := 0 to |manifest|
      invariant ordered + Taken(rest, manifest[i..]) == Taken(all, manifest)
      invariant rest == Leftover(all, manifest[..i])
    {
      var d := manifest[i];
      assert manifest[i..][0] == d && manifest[i..][1..] == manifest[i + 1..];
      assert manifest[..i + 1] == manifest[..i] + [d];
      if d in rest {
        ordered := ordered + [rest[d]];
        rest := rest - {d};
      }
    }
    assert manifest[..|manifest|] == manifest;
  }

  /** `into_values`: every value once. */
  method ListAll(m: map<string, Archive>) returns (keys: seq<string>, values: seq<Archive>)
    ensures Lists(m, keys, values)
  {
    keys, values := [], [];
    var todo := m.Keys;
    while todo != {}
      invariant todo <= m.Keys && Distinct(keys) && |values| == |keys|
      invariant (set d | d in keys) == m.Keys - todo && forall i | 0 <= i < |keys| :: keys[i] !in todo
      invariant forall i | 0 <= i < |keys| :: keys[i] in m && values[i] == m[keys[i]]
    {
      var d :| d in todo;
      assert (set k | k in keys + [d]) == (set k | k in keys) + {d};
      keys, values, todo := keys + [d], values + [m[d]], todo - {d};
    }
  }

  // ---------------------------------------------------------------------
  // The order is the manifest's
  // ---------------------------------------------------------------------

  lemma {:induction false} ByDigestKeys(layers: seq<Archive>, digest: Digest)
    ensures ByDigest(layers, digest).Keys == set x | x in layers :: digest(x)
  {
    if layers != [] {
      var front, last := layers[..|layers| - 1], layers[|layers| - 1];
      ByDigestKeys(front, digest);
      assert layers == front + [last];
    }
  }

  lemma {:induction false} ByDigestFinds(layers: seq<Archive>, digest: Digest, x: Archive)
    requires x in layers && forall y | y in layers && digest(y) == digest(x) :: y == x
    ensures digest(x) in ByDigest(layers, digest) && ByDigest(layers, digest)[digest(x)] == x
  {
    var front, last := layers[..|layers| - 1], layers[|layers| - 1];
    assert layers == front + [last];
    if digest(last) != digest(x) {
      ByDigestFinds(front, digest, x);
    }
  }

  /** The map holds, for each digest, the last layer that has it. */
  lemma {:induction false} ByDigestIsLast(layers: seq<Archive>, digest: Digest, i: nat)
    requires i < |layers| && forall j | i < j < |layers| :: digest(layers[j]) != digest(layers[i])
    ensures digest(layers[i]) in ByDigest(layers, digest)
    ensures ByDigest(layers, digest)[digest(layers[i])] == layers[i]
    decreases |layers|
  {
    if i < |layers| - 1 {
      assert digest(layers[|layers| - 1]) != digest(layers[i]);
      ByDigestIsLast(layers[..|layers| - 1], digest, i);
    }
  }

  lemma {:induction false} TakenIsWanted(m: map<string, Archive>, manifest: seq<string>, wanted: seq<Archive>)
    requires Distinct(manifest) && |wanted| == |manifest|
    requires forall i | 0 <= i < |manifest| :: manifest[i] in m && m[manifest[i]] == wanted[i]
    ensures Taken(m, manifest) == wanted
    decreases |manifest|
  {
    if manifest != [] {
      TakenIsWanted(m - {manifest[0]}, manifest[1..], wanted[1..]);
      assert wanted == [wanted[0]] + wanted[1..];
    }
  }

  lemma {:induction false} TakenIsNoLonger(m: map<string, Archive>, manifest: seq<string>)
    ensures |Taken(m, manifest)| <= |m|
    decreases |manifest|
  {
    if manifest != [] {
      if manifest[0] in m {
        var rest := m - {manifest[0]};
        assert rest.Keys == m.Keys - {manifest[0]};
        TakenIsNoLonger(rest, manifest[1..]);
        assert |rest| == |m| - 1;
      } else {
        TakenIsNoLonger(m, manifest[1..]);
      }
    }
  }

  lemma {:induction false} FewerThanListed(s: seq<string>)
    ensures |set d | d in s| <= |s|
    ensures !Distinct(s) ==> |set d | d in s| < |s|
  {
    if s != [] {
      var front, last := s[..|s| - 1], s[|s| - 1];
      FewerThanListed(front);
      var all, rest := set d | d in s, set d | d in front;
      assert s == front + [last];
      assert all == rest + {last};
      if last in front {
        assert all == rest;
      }
    }
  }

  lemma SubsetIsSmaller(a: set<string>, b: set<string>)
    requires a <= b
    ensures |a| <= |b|
  {
    assert b == a + (b - a);
  }

  predicate Holds(m: map<string, Archive>, d: string, x: Archive) {
    d in m && m[d] == x
  }

  lemma TakenStep(m: map<string, Archive>, manifest: seq<string>, x: Archive)
    requires manifest != []
    ensures var left := if manifest[0] in m then m - {manifest[0]} else m;
            x in Taken(m, manifest) <==> Holds(m, manifest[0], x) || x in Taken(left, manifest[1..])
  {
  }

  lemma {:induction false} TakenMembers(m: map<string, Archive>, manifest: seq<string>, x: Archive)
    ensures x in Taken(m, manifest) <==> exists d | d in manifest :: Holds(m, d, x)
    decreases |manifest|
  {
    if manifest != [] {
      var d0, rest := manifest[0], manifest[1..];
      var left := if d0 in m then m - {d0} else m;
      TakenMembers(left, rest, x);
      TakenStep(m, manifest, x);
      if d :| d in rest && Holds(left, d, x) {
        assert d in manifest && Holds(m, d, x);
      }
      if d :| d in manifest && Holds(m, d, x) && !Holds(m, d0, x) {
        assert d in rest && Holds(left, d, x);
      }
    }
  }

  /** No digest's layer is lost and none is made up: the result holds exactly the layers of the map. */
  lemma RestoredKeepsLayers(layers: seq<Archive>, manifest: seq<string>, digest: Digest, r: seq<Archive>,
                            m: map<string, Archive>, x: Archive)
    requires IsRestored(layers, manifest, digest, r) && m == ByDigest(layers, digest)
    ensures x in r <==> exists d :: Holds(m, d, x)
  {
    var keys, values :| Lists(Leftover(m, manifest), keys, values) && r == Taken(m, manifest) + values;
    MembersOf(m, manifest, keys, values, x);
    assert x in r <==> x in Taken(m, manifest) || x in values;
  }

  lemma MembersOf(m: map<string, Archive>, manifest: seq<string>, keys: seq<string>, values: seq<Archive>, x: Archive)
    requires Lists(Leftover(m, manifest), keys, values)
    ensures x in Taken(m, manifest) || x in values <==> exists d :: Holds(m, d, x)
  {
    TakenMembers(m, manifest, x);
    LeftMembers(m, manifest, keys, values, x);
    if d :| Holds(m, d, x) {
      assert d in manifest || d !in manifest;
    }
  }

  lemma LeftMembers(m: map<string, Archive>, manifest: seq<string>, keys: seq<string>, values: seq<Archive>, x: Archive)
    requires Lists(Leftover(m, manifest), keys, values)
    ensures x in values <==> exists d | d !in manifest :: Holds(m, d, x)
  {
    var left := Leftover(m, manifest);
    if x in values {
      var i :| 0 <= i < |values| && values[i] == x;
      assert keys[i] in left && keys[i] !in manifest && Holds(m, keys[i], x);
    }
    if d :| d !in manifest && Holds(m, d, x) {
      assert d in left.Keys && d in (set k | k in keys);
      var i :| 0 <= i < |keys| && keys[i] == d;
      assert values[i] == x;
    }
  }

  lemma EmptyHasNoMembers(s: seq<string>)
    ensures (set d | d in s) == {} <==> s == []
  {
    var all := set d | d in s;
    if s == [] {
      assert all == {};
    } else {
      assert s[0] in all;
    }
  }

  lemma NothingLeftOver(m: map<string, Archive>, manifest: seq<string>, keys: seq<string>, values: seq<Archive>)
    requires m.Keys <= (set d | d in manifest) && Lists(Leftover(m, manifest), keys, values)
    ensures values == []
  {
    assert Leftover(m, manifest).Keys == {};
    EmptyHasNoMembers(keys);
  }

  /** `layers` are the layers the manifest lists, in any order. */
  predicate Arrived(wanted: seq<Archive>, manifest: seq<string>, digest: Digest, layers: seq<Archive>) {
    |wanted| == |manifest| && multiset(layers) == multiset(wanted)
    && forall i | 0 <= i < |wanted| :: digest(wanted[i]) == manifest[i]
  }

  lemma SameMembers(a: seq<Archive>, b: seq<Archive>, x: Archive)
    requires multiset(a) == multiset(b)
    ensures x in a <==> x in b
  {
    assert x in a <==> x in multiset(a);
    assert x in b <==> x in multiset(b);
  }

  lemma ArrivedAreListed(wanted: seq<Archive>, manifest: seq<string>, digest: Digest, layers: seq<Archive>)
    requires Arrived(wanted, manifest, digest, layers)
    ensures ByDigest(layers, digest).Keys <= set d | d in manifest
  {
    ByDigestKeys(layers, digest);
    forall x | x in layers ensures digest(x) in manifest {
      SameMembers(layers, wanted, x);
      var i :| 0 <= i < |wanted| && wanted[i] == x;
      assert manifest[i] == digest(x);
    }
  }

  lemma ListedAreFound(wanted: seq<Archive>, manifest: seq<string>, digest: Digest, layers: seq<Archive>, i: nat)
    requires Arrived(wanted, manifest, digest, layers) && Distinct(manifest) && i < |wanted|
    ensures var m := ByDigest(layers, digest); manifest[i] in m && m[manifest[i]] == wanted[i]
  {
    SameMembers(layers, wanted, wanted[i]);
    forall y | y in layers && digest(y) == digest(wanted[i]) ensures y == wanted[i] {
      SameMembers(layers, wanted, y);
      var j :| 0 <= j < |wanted| && wanted[j] == y;
      assert manifest[j] == manifest[i];
    }
    ByDigestFinds(layers, digest, wanted[i]);
  }

  /** Whatever order the manifest's layers arrived in, they are put back into manifest order exactly when the
      manifest lists no layer twice. */
  lemma OrderIsRestoredIff(wanted: seq<Archive>, manifest: seq<string>, digest: Digest,
                           layers: seq<Archive>, r: seq<Archive>)
    requires Arrived(wanted, manifest, digest, layers) && IsRestored(layers, manifest, digest, r)
    ensures r == wanted <==> Distinct(manifest)
  {
    var m := ByDigest(layers, digest);
    ArrivedAreListed(wanted, manifest, digest, layers);
    var keys, values :| Lists(Leftover(m, manifest), keys, values) && r == Taken(m, manifest) + values;
    NothingLeftOver(m, manifest, keys, values);
    if Distinct(manifest) {
      forall i | 0 <= i < |manifest| ensures manifest[i] in m && m[manifest[i]] == wanted[i] {
        ListedAreFound(wanted, manifest, digest, layers, i);
      }
      TakenIsWanted(m, manifest, wanted);
    } else {
      TakenIsNoLonger(m, manifest);
      FewerThanListed(manifest);
      SubsetIsSmaller(m.Keys, set d | d in manifest);
    }
  }

  /** With distinct digests, whatever the order of arrival and the directory: each layer of the manifest in turn
      unpacks to its overlay exactly when each fits what is below it and none has a late whiteout; and layers without
      late whiteouts unpack at all exactly when each fits, to the stack of the manifest's layers. */
  lemma PulledImageIsStackIff(lower: Tree, wanted: seq<Archive>, manifest: seq<string>, digest: Digest,
                              layers: seq<Archive>, r: seq<Archive>)
    requires WellFormed(lower) && Distinct(manifest)
    requires Arrived(wanted, manifest, digest, layers) && IsRestored(layers, manifest, digest, r)
    requires forall i | 0 <= i < |wanted| :: Proper(wanted[i])
    ensures var prompt := forall i | 0 <= i < |wanted| :: NoLateWhiteout(Entries(wanted[i]));
            && (ExtractsAsStack(lower, r) <==> AllFit(lower, wanted) && prompt)
            && (prompt ==> (ExtractLayers(lower, r).Some? <==> AllFit(lower, wanted)))
            && (prompt && ExtractLayers(lower, r).Some? ==> IsStack(lower, wanted, ExtractLayers(lower, r).value))
  {
    OrderIsRestoredIff(wanted, manifest, digest, layers, r);
    EveryLayerIsOverlaidIff(lower, wanted);
    if forall i | 0 <= i < |wanted| :: NoLateWhiteout(Entries(wanted[i])) {
      ExtractionIsStackIff(lower, wanted);
    }
  }

  /** A layer listed again above one that deletes its file is lost, and so is the file. */
  lemma RepeatedLayerIsLost(name: string, content: string, a: Archive, b: Archive, digest: Digest, r: seq<Archive>)
    requires !IsMarked(name) && name != "" && MARK + name != OPAQUE_MARK
    requires a == [([name], Leaf(content))] && b == [([MARK + name], Leaf(""))] && digest(a) != digest(b)
    requires IsRestored([a, b, a], [digest(a), digest(b), digest(a)], digest, r)
    ensures r == [a, b]
    ensures ExtractLayers(map[], r) == Some(map[])
    ensures ExtractLayers(map[], [a, b, a]) == Some(map[[name] := Leaf(content)])
  {
    RepeatedIsDropped(a, b, digest, r);
    LayerAndWhiteout(name, content, a, b);
  }

  lemma RepeatedIsDropped(a: Archive, b: Archive, digest: Digest, r: seq<Archive>)
    requires digest(a) != digest(b)
    requires IsRestored([a, b, a], [digest(a), digest(b), digest(a)], digest, r)
    ensures r == [a, b]
  {
    var da, db := digest(a), digest(b);
    var manifest := [da, db, da];
    var m := ByDigest([a, b, a], digest);
    assert [a, b, a][..2] == [a, b] && [a, b][..1] == [a];
    assert ByDigest([a], digest) == ByDigest([], digest)[da := a] == map[da := a];
    assert ByDigest([a, b], digest) == map[da := a][db := b];
    assert m == map[da := a, db := b][da := a] == map[da := a, db := b];
    assert manifest[1..] == [db, da] && [db, da][1..] == [da];
    var keys, values :| Lists(Leftover(m, manifest), keys, values) && r == Taken(m, manifest) + values;
    NothingLeftOver(m, manifest, keys, values);
    assert m - {da} == map[db := b] && map[db := b] - {db} == map[];
    assert Taken(m - {da}, [db, da]) == [b] + Taken(map[db := b] - {db}, [da]);
  }

  lemma LayerAndWhiteout(name: string, content: string, a: Archive, b: Archive)
    requires !IsMarked(name) && name != "" && MARK + name != OPAQUE_MARK
    requires a == [([name], Leaf(content))] && b == [([MARK + name], Leaf(""))]
    ensures ExtractLayers(map[], [a, b]) == Some(map[])
    ensures ExtractLayers(map[], [a, b, a]) == Some(map[[name] := Leaf(content)])
  {
    var put, whiteout := Put([name], Leaf(content)), Whiteout([name]);
    assert OPAQUE_MARK[..|MARK|] == MARK;
    assert (MARK + name)[|MARK|..] == name && [MARK + name][..0] + [name] == [name];
    assert Entries(a) == [put] && Entries(b) == [whiteout];
    var empty: Tree, file: Tree := map[], map[[name] := Leaf(content)];
    assert Apply(empty, put).value == file && Without(file, whiteout) == empty;
    assert ExtractTo(empty, [put], 1) == Some(file) && ExtractTo(file, [whiteout], 1) == Some(empty);
    assert [a, b][1..] == [b] && [b][1..] == [] && [a, b, a][1..] == [b, a] && [b, a][1..] == [a] && [a][1..] == [];
    assert Extract(empty, Entries(a)) == Some(file) && Extract(file, Entries(b)) == Some(empty);
    assert ExtractLayers(file, []) == Some(file) && ExtractLayers(empty, []) == Some(empty);
    assert ExtractLayers(file, [b]) == Some(empty) && ExtractLayers(empty, [a]) == Some(file);
    assert ExtractLayers(file, [b, a]) == ExtractLayers(empty, [a]);
  }
}
