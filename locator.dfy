/**
 * The image locator: `findImagesRecursive` walks one parsed blob in pre-order and adds
 * image locations to a shared, insertion-ordered `Set`.
 */
module Locator {
  import opened Wrappers
  import opened Text
  import opened JsonTree

  /** No value occurs twice: the invariant of a JavaScript `Set`'s insertion order. */
  ghost predicate Distinct(s: seq<Json>) {
    forall i, j :: 0 <= i < j < |s| ==> s[i] != s[j]
  }

  /** `Set.prototype.add`: appends `x` unless it is already present. */
  function Insert(items: seq<Json>, x: Json): seq<Json> {
    if x in items then items else items + [x]
  }

  function InsertOpt(items: seq<Json>, x: Option<Json>): seq<Json> {
    match x
    case Some(v) => Insert(items, v)
    case None => items
  }

  /** The `uri` rule: a string `uri` that names hosted content and is not a map tile. */
  function UriHit(j: Json): Option<Json> {
    match Get(j, "uri")
    case Some(Str(u)) =>
      if u != [] && Contains(u, "scontent") && !Contains(u, "static_map") then Some(Str(u)) else None
    case _ => None
  }

  /** The `photo_image` rule: a truthy `photo_image.uri`, of whatever type, is taken as is. */
  function PhotoHit(j: Json): Option<Json> {
    match Get(j, "photo_image")
    case Some(p) =>
      if !Truthy(p) then None
      else (match Get(p, "uri")
        case Some(v) => if Truthy(v) then Some(v) else None
        case None => None)
    case None => None
  }

  /** The set after walking `j` starting from `acc`, in the order the source adds to it. */
  function Walk(j: Json, acc: seq<Json>): seq<Json>
    decreases j, 1
  {
    if !IsObjectLike(j) then acc
    else WalkFrom(j, 0, InsertOpt(InsertOpt(acc, UriHit(j)), PhotoHit(j)))
  }

  /** Walks the children of `j` from index `i` on. */
  function WalkFrom(j: Json, i: nat, acc: seq<Json>): seq<Json>
    requires i <= |Children(j)|
    decreases j, 0, |Children(j)| - i
  {
    if i == |Children(j)| then acc
    else WalkFrom(j, i + 1, Walk(Children(j)[i], acc))
  }

  // ---------------------------------------------------------------------------
  // Reference definition: the walk is set insertion of the pre-order list of hits.

  function OptSeq(x: Option<Json>): seq<Json> {
    match x
    case Some(v) => [v]
    case None => []
  }

  /** The values the two rules pick at node `j` itself, `uri` rule first. */
  function Hits(j: Json): seq<Json> {
    OptSeq(UriHit(j)) + OptSeq(PhotoHit(j))
  }

  /** Every hit in `j`, in pre-order, repetitions included. */
  function Collect(j: Json): seq<Json>
    decreases j, 1
  {
    if !IsObjectLike(j) then [] else Hits(j) + CollectFrom(j, 0)
  }

  function CollectFrom(j: Json, i: nat): seq<Json>
    requires i <= |Children(j)|
    decreases j, 0, |Children(j)| - i
  {
    if i == |Children(j)| then [] else Collect(Children(j)[i]) + CollectFrom(j, i + 1)
  }

  /** Adds each of `xs` to the set in turn. */
  function AddAll(acc: seq<Json>, xs: seq<Json>): seq<Json>
    decreases |xs|
  {
    if xs == [] then acc else AddAll(Insert(acc, xs[0]), xs[1..])
  }

  /** `n` is `j` or a node below it. */
  ghost predicate Reaches(j: Json, n: Json)
    decreases j
  {
    j == n || exists k :: 0 <= k < |Children(j)| && Reaches(Children(j)[k], n)
  }

  // ---------------------------------------------------------------------------
  // Set insertion

  lemma {:induction false} AddAllFacts(acc: seq<Json>, xs: seq<Json>)
    ensures |acc| <= |AddAll(acc, xs)| && AddAll(acc, xs)[..|acc|] == acc
    ensures forall x :: x in AddAll(acc, xs) <==> x in acc || x in xs
    ensures Distinct(acc) ==> Distinct(AddAll(acc, xs))
    decreases |xs|
  {
    if xs != [] {
      var acc' := Insert(acc, xs[0]);
      AddAllFacts(acc', xs[1..]);
      assert forall x :: x in xs <==> x == xs[0] || x in xs[1..];
      assert acc'[..|acc|] == acc;
    }
  }

  lemma {:induction false} AddAllConcat(acc: seq<Json>, xs: seq<Json>, ys: seq<Json>)
    ensures AddAll(acc, xs + ys) == AddAll(AddAll(acc, xs), ys)
    decreases |xs|
  {
    if xs == [] {
      assert xs + ys == ys;
    } else {
      assert (xs + ys)[0] == xs[0] && (xs + ys)[1..] == xs[1..] + ys;
      AddAllConcat(Insert(acc, xs[0]), xs[1..], ys);
    }
  }

  lemma {:induction false} AddAllAbsorbed(acc: seq<Json>, xs: seq<Json>)
    requires forall x :: x in xs ==> x in acc
    ensures AddAll(acc, xs) == acc
    decreases |xs|
  {
    if xs != [] {
      AddAllAbsorbed(acc, xs[1..]);
    }
  }

  // ---------------------------------------------------------------------------
  // The walk against the reference

  /** Walking `j` adds the pre-order hits of `j` to the set, one after another. */
  lemma {:induction false} WalkIsAddAll(j: Json, acc: seq<Json>)
    ensures Walk(j, acc) == AddAll(acc, Collect(j))
    decreases j, 1
  {
    if IsObjectLike(j) {
      var a := InsertOpt(InsertOpt(acc, UriHit(j)), PhotoHit(j));
      assert a == AddAll(acc, Hits(j)) by {
        AddAllConcat(acc, OptSeq(UriHit(j)), OptSeq(PhotoHit(j)));
      }
      WalkFromIsAddAll(j, 0, a);
      AddAllConcat(acc, Hits(j), CollectFrom(j, 0));
    }
  }

  lemma {:induction false} WalkFromIsAddAll(j: Json, i: nat, acc: seq<Json>)
    requires i <= |Children(j)|
    ensures WalkFrom(j, i, acc) == AddAll(acc, CollectFrom(j, i))
    decreases j, 0, |Children(j)| - i
  {
    if i < |Children(j)| {
      var c := Children(j)[i];
      WalkIsAddAll(c, acc);
      WalkFromIsAddAll(j, i + 1, Walk(c, acc));
      AddAllConcat(acc, Collect(c), CollectFrom(j, i + 1));
    }
  }

  /** The walk only appends: the old set is a prefix of the new one, and nothing repeats. */
  lemma WalkExtends(j: Json, acc: seq<Json>)
    ensures |acc| <= |Walk(j, acc)| && Walk(j, acc)[..|acc|] == acc
    ensures Distinct(acc) ==> Distinct(Walk(j, acc))
    ensures forall x :: x in Walk(j, acc) <==> x in acc || x in Collect(j)
  {
    WalkIsAddAll(j, acc);
    AddAllFacts(acc, Collect(j));
  }

  /** Walking the same blob a second time adds nothing. */
  lemma WalkIdempotent(j: Json, acc: seq<Json>)
    ensures Walk(j, Walk(j, acc)) == Walk(j, acc)
  {
    WalkIsAddAll(j, acc);
    WalkIsAddAll(j, Walk(j, acc));
    AddAllFacts(acc, Collect(j));
    AddAllAbsorbed(Walk(j, acc), Collect(j));
  }

  /** `null`, booleans, numbers and strings contribute nothing and are not entered. */
  lemma WalkPrimitive(j: Json, acc: seq<Json>)
    requires !IsObjectLike(j)
    ensures Walk(j, acc) == acc && Collect(j) == []
  {
  }

  // ---------------------------------------------------------------------------
  // Which values the walk finds

  lemma {:induction false} CollectFromHasChild(j: Json, i: nat, k: nat)
    requires i <= k < |Children(j)|
    ensures forall x :: x in Collect(Children(j)[k]) ==> x in CollectFrom(j, i)
    decreases k - i
  {
    var here := Collect(Children(j)[i]);
    var rest := CollectFrom(j, i + 1);
    assert CollectFrom(j, i) == here + rest;
    if i < k {
      CollectFromHasChild(j, i + 1, k);
      assert forall x :: x in rest ==> x in here + rest;
    }
  }

  lemma {:induction false} CollectFromSound(j: Json, i: nat, x: Json) returns (k: nat)
    requires i <= |Children(j)|
    requires x in CollectFrom(j, i)
    ensures i <= k < |Children(j)| && x in Collect(Children(j)[k])
    decreases |Children(j)| - i
  {
    if x in Collect(Children(j)[i]) {
      k := i;
    } else {
      k := CollectFromSound(j, i + 1, x);
    }
  }

  /** Every value found is a hit of some node reachable from the root. */
  lemma {:induction false} CollectSound(j: Json, x: Json)
    requires x in Collect(j)
    ensures exists n :: Reaches(j, n) && x in Hits(n)
    decreases j
  {
    if x !in Hits(j) {
      var k := CollectFromSound(j, 0, x);
      var c := Children(j)[k];
      CollectSound(c, x);
      var n :| Reaches(c, n) && x in Hits(n);
      assert Reaches(j, n);
    }
  }

  /** Every hit of every reachable node is found, whether or not its ancestors matched. */
  lemma {:induction false} CollectComplete(j: Json, n: Json, x: Json)
    requires Reaches(j, n) && x in Hits(n)
    ensures x in Collect(j)
    decreases j
  {
    if j != n {
      var k :| 0 <= k < |Children(j)| && Reaches(Children(j)[k], n);
      CollectComplete(Children(j)[k], n, x);
      CollectFromHasChild(j, 0, k);
    } else {
      assert UriHit(j).Some? || PhotoHit(j).Some?;
      assert Get(j, "uri").Some? || Get(j, "photo_image").Some?;
    }
  }

  /**
   * The set after the walk holds exactly the old members and the hits of the nodes
   * reachable from the blob.
   */
  lemma WalkFinds(j: Json, acc: seq<Json>, x: Json)
    ensures x in Walk(j, acc) <==> x in acc || exists n :: Reaches(j, n) && x in Hits(n)
  {
    WalkExtends(j, acc);
    if x in Collect(j) {
      CollectSound(j, x);
    }
    if exists n :: Reaches(j, n) && x in Hits(n) {
      var n :| Reaches(j, n) && x in Hits(n);
      CollectComplete(j, n, x);
    }
  }

  /** The `uri` rule: a `uri` string with `scontent` and without `static_map` is collected. */
  lemma UriRuleCollects(j: Json, n: Json, u: string, acc: seq<Json>)
    requires Reaches(j, n) && Get(n, "uri") == Some(Str(u))
    requires Contains(u, "scontent") && !Contains(u, "static_map")
    ensures Str(u) in Walk(j, acc)
  {
    assert Str(u) in Hits(n);
    WalkFinds(j, acc, Str(u));
  }

  /** The `photo_image` rule bypasses the `scontent`/`static_map` test. */
  lemma PhotoRuleCollects(j: Json, n: Json, p: Json, v: Json, acc: seq<Json>)
    requires Reaches(j, n) && Get(n, "photo_image") == Some(p) && Get(p, "uri") == Some(v)
    requires Truthy(v)
    ensures v in Walk(j, acc)
  {
    assert v in Hits(n);
    WalkFinds(j, acc, v);
  }

  /** A `static_map` location can only enter the set through some node's `photo_image`. */
  lemma StaticMapOnlyViaPhoto(j: Json, u: string)
    requires Contains(u, "static_map") && Str(u) in Walk(j, [])
    ensures exists n, p :: Reaches(j, n) && Get(n, "photo_image") == Some(p) && Get(p, "uri") == Some(Str(u))
  {
    WalkFinds(j, [], Str(u));
    var n :| Reaches(j, n) && Str(u) in Hits(n);
    assert UriHit(n) != Some(Str(u));
    assert PhotoHit(n) == Some(Str(u));
    var p := Get(n, "photo_image").value;
    assert Get(p, "uri") == Some(Str(u));
  }

  // ---------------------------------------------------------------------------
  // A worked example

  const HostedUri: string := "https://scontent.cdn/x.jpg"
  const OtherUri: string := "https://x/y.jpg"

  /** `{uri: "https://scontent.cdn/x.jpg"}` */
  const HostedNode: Json := Obj([("uri", Str(HostedUri))])
  /** `{uri: "https://x/y.jpg"}` */
  const PhotoNode: Json := Obj([("uri", Str(OtherUri))])
  /** `{photo_image: {uri: "https://x/y.jpg"}}` */
  const PhotoHolder: Json := Obj([("photo_image", PhotoNode)])
  /** `{a: {uri: ...}, b: [{photo_image: {uri: ...}}]}` */
  const ExampleBlob: Json := Obj([("a", HostedNode), ("b", Arr([PhotoHolder]))])

  lemma HostedUriQualifies()
    ensures Contains(HostedUri, "scontent") && !Contains(HostedUri, "static_map")
  {
    assert OccursAt(HostedUri, "scontent", 8);
    MissingChar(HostedUri, "static_map", '_');
  }

  lemma OtherUriIsNotHosted()
    ensures !Contains(OtherUri, "scontent")
  {
    MissingChar(OtherUri, "scontent", 'c');
  }

  lemma WalkHostedNode(acc: seq<Json>)
    requires Str(HostedUri) !in acc
    ensures Walk(HostedNode, acc) == acc + [Str(HostedUri)]
  {
    HostedUriQualifies();
    assert Get(HostedNode, "uri") == Some(Str(HostedUri));
    assert UriHit(HostedNode) == Some(Str(HostedUri));
    assert Get(HostedNode, "photo_image") == None;
    assert PhotoHit(HostedNode) == None;
    var found := acc + [Str(HostedUri)];
    assert Children(HostedNode) == [Str(HostedUri)];
    assert Walk(Str(HostedUri), found) == found;
    assert WalkFrom(HostedNode, 1, found) == found;
    assert WalkFrom(HostedNode, 0, found) == found;
  }

  lemma WalkPhotoHolder(acc: seq<Json>)
    requires Str(OtherUri) !in acc
    ensures Walk(PhotoHolder, acc) == acc + [Str(OtherUri)]
  {
    OtherUriIsNotHosted();
    assert Get(PhotoHolder, "uri") == None;
    assert Get(PhotoHolder, "photo_image") == Some(PhotoNode);
    assert Get(PhotoNode, "uri") == Some(Str(OtherUri));
    assert PhotoHit(PhotoHolder) == Some(Str(OtherUri));
    var found := acc + [Str(OtherUri)];
    assert Children(PhotoHolder) == [PhotoNode];
    assert UriHit(PhotoNode) == None;
    assert Get(PhotoNode, "photo_image") == None;
    assert Children(PhotoNode) == [Str(OtherUri)];
    assert WalkFrom(PhotoNode, 0, found) == found;
    assert Walk(PhotoNode, found) == found;
    assert WalkFrom(PhotoHolder, 1, found) == found;
    assert WalkFrom(PhotoHolder, 0, found) == found;
  }

  lemma WalkPhotoList()
    ensures Walk(Arr([PhotoHolder]), [Str(HostedUri)]) == [Str(HostedUri), Str(OtherUri)]
  {
    var list := Arr([PhotoHolder]);
    var one := [Str(HostedUri)];
    assert HostedUri != OtherUri by {
      assert HostedUri[8] != OtherUri[8];
    }
    WalkPhotoHolder(one);
    var both := one + [Str(OtherUri)];
    assert Children(list) == [PhotoHolder];
    assert WalkFrom(list, 1, both) == both;
    assert WalkFrom(list, 0, one) == both;
  }

  /**
   * A `uri` with `scontent` in a nested object and a `photo_image.uri` without it inside
   * an array are both found, in that order.
   */
  lemma NestedExample()
    ensures Walk(ExampleBlob, []) == [Str(HostedUri), Str(OtherUri)]
  {
    var list := Arr([PhotoHolder]);
    var one := [Str(HostedUri)];
    var both := [Str(HostedUri), Str(OtherUri)];
    assert Get(ExampleBlob, "uri") == None && Get(ExampleBlob, "photo_image") == None;
    assert Children(ExampleBlob) == [HostedNode, list];
    WalkHostedNode([]);
    assert [] + one == one;
    WalkPhotoList();
    assert WalkFrom(ExampleBlob, 2, both) == both;
    assert WalkFrom(ExampleBlob, 1, one) == both;
    assert WalkFrom(ExampleBlob, 0, []) == both;
  }

  // ---------------------------------------------------------------------------
  // The imperative walk over a shared set

  /** A JavaScript `Set` of candidates; `items` is its insertion order. */
  class ImageSet {
    var items: seq<Json>

    ghost predicate Valid()
      reads this
    {
      Distinct(items)
    }

    constructor ()
      ensures Valid() && items == []
    {
      items := [];
    }

    method Add(x: Json)
      requires Valid()
      modifies this
      ensures Valid()
      ensures items == Insert(old(items), x)
    {
      if x !in items {
        items := items + [x];
      }
    }
  }

  /** The `uri` rule applied to `obj` itself (lines 40-45). */
  method AddUriHit(obj: Json, images: ImageSet)
    requires images.Valid()
    modifies images
    ensures images.Valid()
    ensures images.items == InsertOpt(old(images.items), UriHit(obj))
  {
    var uri := Get(obj, "uri");
    if uri.Some? && Truthy(uri.value) && uri.value.Str? {
      var u := uri.value.s;
      if Contains(u, "scontent") && !Contains(u, "static_map") {
        images.Add(uri.value);
      }
    }
  }

  /** The `photo_image` rule applied to `obj` itself (lines 46-48). */
  method AddPhotoHit(obj: Json, images: ImageSet)
    requires images.Valid()
    modifies images
    ensures images.Valid()
    ensures images.items == InsertOpt(old(images.items), PhotoHit(obj))
  {
    var photo := Get(obj, "photo_image");
    if photo.Some? && Truthy(photo.value) {
      var inner := Get(photo.value, "uri");
      if inner.Some? && Truthy(inner.value) {
        images.Add(inner.value);
      }
    }
  }

  /** `findImagesRecursive(obj, images)`: adds what `Walk` describes to `images` in place. */
  method FindImagesRecursive(obj: Json, images: ImageSet)
    requires images.Valid()
    modifies images
    ensures images.Valid()
    ensures images.items == Walk(obj, old(images.items))
    decreases obj
  {
    if !IsObjectLike(obj) {
      return;
    }
    AddUriHit(obj, images);
    AddPhotoHit(obj, images);
    var children := Children(obj);
    var i := 0;
    while i < |children|
      invariant 0 <= i <= |children|
      invariant images.Valid()
      invariant WalkFrom(obj, i, images.items) == Walk(obj, old(images.items))
    {
      FindImagesRecursive(children[i], images);
      i := i + 1;
    }
  }
}
