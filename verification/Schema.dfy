/** `schema_descriptor` of crates/bench/src/benchmark_harness.rs: a canonical
    description of the shape of a JSON value, itself a JSON value. The text
    form that array entries are sorted and deduplicated by is a parameter. */
module Schema {
  import opened Text
  import opened Ordering

  datatype Json =
    | Null
    | Bool(b: bool)
    | Number(n: int)
    | String(s: string)
    | Array(items: seq<Json>)
    | Object(entries: map<string, Json>)

  type Serializer = Json -> string

  ghost predicate Injective(ser: Serializer) {
    forall a, b :: ser(a) == ser(b) ==> a == b
  }

  function ByText(ser: Serializer): (Json, Json) -> bool {
    (a, b) => Leq(ser(a), ser(b))
  }

  /** `dedup_by`: of each run of equal texts the first entry stays. */
  function Dedup(ser: Serializer, xs: seq<Json>): seq<Json> {
    if xs == [] then []
    else
      var rest := Dedup(ser, xs[1..]);
      [xs[0]] + (if rest != [] && ser(rest[0]) == ser(xs[0]) then rest[1..] else rest)
  }

  function Normalized(ser: Serializer, descriptors: seq<Json>): seq<Json> {
    Dedup(ser, Sort(descriptors, ByText(ser)))
  }

  function Descriptor(ser: Serializer, v: Json): Json {
    match v
    case Null => String("null")
    case Bool(_) => String("bool")
    case Number(_) => String("number")
    case String(_) => String("string")
    case Array(items) => Object(map["array" := Array(Normalized(ser, Descriptors(ser, items)))])
    case Object(entries) => Object(map k | k in entries :: Descriptor(ser, entries[k]))
  }

  function Descriptors(ser: Serializer, items: seq<Json>): (ds: seq<Json>)
    ensures |ds| == |items|
  {
    seq(|items|, i requires 0 <= i < |items| => Descriptor(ser, items[i]))
  }

  // ------------------------------------------------------------------- shapes

  /** Same shape: scalars of the same kind, objects with the same keys and
      entry shapes, arrays with the same set of entry shapes. */
  ghost predicate SameShape(v: Json, w: Json)
    decreases v, 0
  {
    match (v, w)
    case (Null, Null) => true
    case (Bool(_), Bool(_)) => true
    case (Number(_), Number(_)) => true
    case (String(_), String(_)) => true
    case (Array(x), Array(y)) =>
      && (forall i :: 0 <= i < |x| ==> HasShapeOf(x[i], y))
      && (forall j :: 0 <= j < |y| ==> ShapeOccurs(x, y[j]))
    case (Object(x), Object(y)) => x.Keys == y.Keys && forall k :: k in x ==> SameShape(x[k], y[k])
    case _ => false
  }

  ghost predicate HasShapeOf(v: Json, y: seq<Json>)
    decreases v, 1
  {
    exists j :: 0 <= j < |y| && SameShape(v, y[j])
  }

  ghost predicate ShapeOccurs(x: seq<Json>, w: Json)
    decreases x, 1
  {
    exists i :: 0 <= i < |x| && SameShape(x[i], w)
  }

  // -------------------------------------------------------- canonical entries

  lemma TextOrder(ser: Serializer)
    requires Injective(ser)
    ensures TotalPreorder(ByText(ser)) && Antisymmetric(ByText(ser))
  {
    hide Leq;
    StringOrder();
  }

  lemma {:induction false} DedupMeaning(ser: Serializer, xs: seq<Json>)
    requires Injective(ser) && Sorted(xs, ByText(ser))
    ensures var ys := Dedup(ser, xs);
      && (forall x :: x in ys <==> x in xs)
      && Sorted(ys, ByText(ser)) && Distinct(ys)
      && (xs != [] ==> ys != [] && ys[0] == xs[0])
  {
    hide Leq;
    TextOrder(ser);
    if xs == [] {
    } else {
      DedupMeaning(ser, xs[1..]);
      var rest := Dedup(ser, xs[1..]);
      assert forall x :: x in xs <==> x == xs[0] || x in xs[1..];
      assert forall x :: x in rest ==> ByText(ser)(xs[0], x);
      if rest != [] && ser(rest[0]) == ser(xs[0]) {
        assert rest[0] == xs[0];
        assert Dedup(ser, xs) == rest;
      } else {
        FirstIsNew(ser, xs[0], rest);
        PrependSorted(xs[0], rest, ByText(ser));
      }
    }
  }

  lemma FirstIsNew(ser: Serializer, x: Json, rest: seq<Json>)
    requires Injective(ser) && Sorted(rest, ByText(ser))
    requires forall y :: y in rest ==> ByText(ser)(x, y)
    requires rest != [] ==> ser(rest[0]) != ser(x)
    ensures x !in rest
  {
    hide Leq;
    TextOrder(ser);
    if rest != [] {
      var y := rest[0];
      assert y in rest && ByText(ser)(x, y) && y != x;
      assert !ByText(ser)(y, x);
      assert forall i :: 0 < i < |rest| ==> ByText(ser)(y, rest[i]);
    }
  }

  /** Normalised entry lists are equal exactly when they hold the same entries,
      whatever the order and however often they occurred. */
  lemma NormalizedCanonical(ser: Serializer, xs: seq<Json>, ys: seq<Json>)
    requires Injective(ser)
    ensures Normalized(ser, xs) == Normalized(ser, ys) <==> forall d :: d in xs <==> d in ys
  {
    hide Leq, ByText, Dedup, Sorted;
    TextOrder(ser);
    var leq := ByText(ser);
    SortSorted(xs, leq);
    SortSorted(ys, leq);
    DedupMeaning(ser, Sort(xs, leq));
    DedupMeaning(ser, Sort(ys, leq));
    var a, b := Normalized(ser, xs), Normalized(ser, ys);
    assert forall d :: d in a <==> d in xs;
    assert forall d :: d in b <==> d in ys;
    if forall d :: d in xs <==> d in ys {
      StrictlySortedUnique(a, b, leq);
    }
  }

  /** What a descriptor looks like: the kind of a scalar; under the one key
      `array`, what describes the entries, once each and in text order; or the
      same keys with what describes their values. */
  lemma DescriptorForm(ser: Serializer, v: Json) returns (ds: seq<Json>)
    requires Injective(ser)
    ensures match v
      case Null => Descriptor(ser, v) == String("null")
      case Bool(_) => Descriptor(ser, v) == String("bool")
      case Number(_) => Descriptor(ser, v) == String("number")
      case String(_) => Descriptor(ser, v) == String("string")
      case Array(items) =>
        && Descriptor(ser, v) == Object(map["array" := Array(ds)])
        && (forall d :: d in ds <==> exists i :: 0 <= i < |items| && Descriptor(ser, items[i]) == d)
        && (forall i, j :: 0 <= i < j < |ds| ==> ds[i] != ds[j] && Leq(ser(ds[i]), ser(ds[j])))
      case Object(entries) =>
        && Descriptor(ser, v).Object? && Descriptor(ser, v).entries.Keys == entries.Keys
        && forall k :: k in entries ==> Descriptor(ser, v).entries[k] == Descriptor(ser, entries[k])
  {
    ds := [];
    if v.Array? {
      var all := Descriptors(ser, v.items);
      ds := Normalized(ser, all);
      NormalizedForm(ser, all);
      assert forall i :: 0 <= i < |all| ==> all[i] == Descriptor(ser, v.items[i]);
      assert forall d :: d in all <==> exists i :: 0 <= i < |all| && all[i] == d;
    }
  }

  lemma NormalizedForm(ser: Serializer, xs: seq<Json>)
    requires Injective(ser)
    ensures var ds := Normalized(ser, xs);
      && (forall d :: d in ds <==> d in xs)
      && forall i, j :: 0 <= i < j < |ds| ==> ds[i] != ds[j] && Leq(ser(ds[i]), ser(ds[j]))
  {
    hide Leq, Dedup;
    TextOrder(ser);
    SortSorted(xs, ByText(ser));
    DedupMeaning(ser, Sort(xs, ByText(ser)));
    var ds := Normalized(ser, xs);
    forall i, j | 0 <= i < j < |ds| ensures Leq(ser(ds[i]), ser(ds[j])) {
      assert ByText(ser)(ds[i], ds[j]);
    }
  }

  // --------------------------------------------------------------- the theorem

  lemma DescriptorIsNoArray(ser: Serializer, v: Json)
    ensures !Descriptor(ser, v).Array?
  {
  }

  /** An array is never described like an object, not even like one whose only
      key is `array`. */
  lemma ArrayIsNoObject(ser: Serializer, items: seq<Json>, entries: map<string, Json>)
    ensures Descriptor(ser, Array(items)) != Descriptor(ser, Object(entries))
  {
    var d := Descriptor(ser, Array(items)).entries;
    assert "array" in d && d["array"].Array?;
    if "array" in entries {
      DescriptorIsNoArray(ser, entries["array"]);
    }
    assert "array" in Descriptor(ser, Object(entries)).entries <==> "array" in entries;
  }

  ghost predicate Alike(ser: Serializer, v: Json, w: Json) {
    Descriptor(ser, v) == Descriptor(ser, w)
  }

  lemma EntryDescribed(ser: Serializer, v: Json, y: seq<Json>)
    ensures Descriptor(ser, v) in Descriptors(ser, y) <==> exists j :: 0 <= j < |y| && Alike(ser, v, y[j])
  {
    hide Descriptor;
    var b := Descriptors(ser, y);
    assert forall j :: 0 <= j < |y| ==> b[j] == Descriptor(ser, y[j]);
    if Descriptor(ser, v) in b {
      var j :| 0 <= j < |b| && b[j] == Descriptor(ser, v);
      assert Alike(ser, v, y[j]);
    }
  }

  lemma SubsetDescribed(ser: Serializer, x: seq<Json>, y: seq<Json>)
    ensures (forall d :: d in Descriptors(ser, x) ==> d in Descriptors(ser, y)) <==>
      forall i :: 0 <= i < |x| ==> Descriptor(ser, x[i]) in Descriptors(ser, y)
  {
    hide Descriptor;
    var a := Descriptors(ser, x);
    assert forall i :: 0 <= i < |x| ==> a[i] == Descriptor(ser, x[i]) && a[i] in a;
  }

  lemma DescribedObjects(ser: Serializer, x: map<string, Json>, y: map<string, Json>)
    ensures Descriptor(ser, Object(x)) == Descriptor(ser, Object(y)) <==>
      x.Keys == y.Keys && forall k :: k in x ==> Descriptor(ser, x[k]) == Descriptor(ser, y[k])
  {
    var a, b := Descriptor(ser, Object(x)).entries, Descriptor(ser, Object(y)).entries;
    assert a.Keys == x.Keys && b.Keys == y.Keys;
    assert forall k :: k in x ==> a[k] == Descriptor(ser, x[k]);
    assert forall k :: k in y ==> b[k] == Descriptor(ser, y[k]);
  }

  ghost predicate Agree(ser: Serializer, v: Json, w: Json) {
    Alike(ser, v, w) <==> SameShape(v, w)
  }

  lemma LeftEntry(ser: Serializer, v: Json, y: seq<Json>)
    requires forall j :: 0 <= j < |y| ==> Agree(ser, v, y[j])
    ensures HasShapeOf(v, y) <==> Descriptor(ser, v) in Descriptors(ser, y)
  {
    hide Descriptor, Alike, SameShape;
    EntryDescribed(ser, v, y);
    assert forall j :: 0 <= j < |y| ==> (Alike(ser, v, y[j]) <==> SameShape(v, y[j])) by {
      assert forall j :: 0 <= j < |y| ==> Agree(ser, v, y[j]);
    }
  }

  lemma RightEntry(ser: Serializer, x: seq<Json>, w: Json)
    requires forall i :: 0 <= i < |x| ==> Agree(ser, x[i], w)
    ensures ShapeOccurs(x, w) <==> Descriptor(ser, w) in Descriptors(ser, x)
  {
    hide Descriptor, SameShape;
    EntryDescribed(ser, w, x);
    assert forall i :: 0 <= i < |x| ==> (Alike(ser, w, x[i]) <==> SameShape(x[i], w)) by {
      assert forall i :: 0 <= i < |x| ==> Agree(ser, x[i], w);
    }
  }

  lemma ArrayCase(ser: Serializer, x: seq<Json>, y: seq<Json>)
    requires Injective(ser)
    requires forall i, j :: 0 <= i < |x| && 0 <= j < |y| ==> Agree(ser, x[i], y[j])
    ensures Agree(ser, Array(x), Array(y))
  {
    hide Descriptor, SameShape, Normalized, Injective, HasShapeOf, ShapeOccurs;
    ArraysDescribed(ser, x, y);
    NormalizedCanonical(ser, Descriptors(ser, x), Descriptors(ser, y));
    SubsetDescribed(ser, x, y);
    SubsetDescribed(ser, y, x);
    forall i | 0 <= i < |x| ensures HasShapeOf(x[i], y) <==> Descriptor(ser, x[i]) in Descriptors(ser, y) {
      LeftEntry(ser, x[i], y);
    }
    forall j | 0 <= j < |y| ensures ShapeOccurs(x, y[j]) <==> Descriptor(ser, y[j]) in Descriptors(ser, x) {
      RightEntry(ser, x, y[j]);
    }
    ArrayShape(x, y);
  }

  lemma ArrayShape(x: seq<Json>, y: seq<Json>)
    ensures SameShape(Array(x), Array(y)) <==>
      && (forall i :: 0 <= i < |x| ==> HasShapeOf(x[i], y))
      && (forall j :: 0 <= j < |y| ==> ShapeOccurs(x, y[j]))
  {
    hide HasShapeOf, ShapeOccurs;
  }

  lemma ObjectCase(ser: Serializer, x: map<string, Json>, y: map<string, Json>)
    requires forall k :: k in x && k in y ==>
      (Descriptor(ser, x[k]) == Descriptor(ser, y[k]) <==> SameShape(x[k], y[k]))
    ensures Descriptor(ser, Object(x)) == Descriptor(ser, Object(y)) <==> SameShape(Object(x), Object(y))
  {
    hide Descriptor;
    DescribedObjects(ser, x, y);
  }

  /** Two values get the same descriptor exactly when they have the same shape. */
  lemma {:induction false} DescriptorIsShape(ser: Serializer, v: Json, w: Json)
    requires Injective(ser)
    ensures Descriptor(ser, v) == Descriptor(ser, w) <==> SameShape(v, w)
    decreases v
  {
    hide Descriptor, SameShape, Injective;
    if v.Array? && w.Array? {
      forall i, j | 0 <= i < |v.items| && 0 <= j < |w.items|
        ensures Agree(ser, v.items[i], w.items[j])
      {
        DescriptorIsShape(ser, v.items[i], w.items[j]);
      }
      ArrayCase(ser, v.items, w.items);
    } else if v.Object? && w.Object? {
      forall k | k in v.entries && k in w.entries
        ensures Descriptor(ser, v.entries[k]) == Descriptor(ser, w.entries[k])
          <==> SameShape(v.entries[k], w.entries[k])
      {
        DescriptorIsShape(ser, v.entries[k], w.entries[k]);
      }
      ObjectCase(ser, v.entries, w.entries);
    } else {
      MixedCase(ser, v, w);
    }
  }

  lemma MixedCase(ser: Serializer, v: Json, w: Json)
    requires !(v.Array? && w.Array?) && !(v.Object? && w.Object?)
    ensures Descriptor(ser, v) == Descriptor(ser, w) <==> SameShape(v, w)
  {
    match (v, w)
    case (Array(x), Object(y)) => ArrayIsNoObject(ser, x, y);
    case (Object(x), Array(y)) => ArrayIsNoObject(ser, y, x);
    case _ => ScalarsDescribed(ser, v, w);
  }

  lemma ArraysDescribed(ser: Serializer, x: seq<Json>, y: seq<Json>)
    ensures Descriptor(ser, Array(x)) == Descriptor(ser, Array(y)) <==>
      Normalized(ser, Descriptors(ser, x)) == Normalized(ser, Descriptors(ser, y))
  {
    var a, b := Descriptor(ser, Array(x)).entries, Descriptor(ser, Array(y)).entries;
    assert a["array"] == Array(Normalized(ser, Descriptors(ser, x)));
    assert b["array"] == Array(Normalized(ser, Descriptors(ser, y)));
  }

  lemma ScalarsDescribed(ser: Serializer, v: Json, w: Json)
    requires !(v.Array? || v.Object?) || !(w.Array? || w.Object?)
    ensures Descriptor(ser, v) == Descriptor(ser, w) <==> SameShape(v, w)
  {
    assert "null"[0] == 'n' && "number"[0] == 'n' && "null"[1] == 'u' && "number"[2] == 'm' && "null"[2] == 'l';
    assert "bool"[0] == 'b' && "string"[0] == 's';
  }
}
