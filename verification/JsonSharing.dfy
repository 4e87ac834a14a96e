/**
  json11 values are shared, and its comparison operators look at their addresses first. This
  module says when that short cut can be told from a comparison of the trees.
 */
module JsonSharing {
  import opened JsonValue
  import opened JsonOrder

  /** A handle: the address of a value object, and what the object holds. */
  datatype Ref = Ref(address: nat, value: Value)

  datatype Value =
    | VNull
    | VInt(i: int)
    | VDbl(d: Double)
    | VBool(b: bool)
    | VStr(s: Bytes)
    | VArr(items: seq<Ref>)
    | VObj(fields: seq<RefField>)

  datatype RefField = RefField(key: Bytes, value: Ref)

  /** The tree a handle stands for. */
  function Forget(r: Ref): Json
    decreases r, 1
  {
    match r.value
    case VNull => Null
    case VInt(i) => Int(i)
    case VDbl(d) => Dbl(d)
    case VBool(b) => Bool(b)
    case VStr(s) => Str(s)
    case VArr(x) => Arr(ForgetItems(x))
    case VObj(x) => Obj(ForgetFields(x))
  }

  function ForgetItems(x: seq<Ref>): seq<Json>
    decreases x, 0
  {
    if x == [] then [] else [Forget(x[0])] + ForgetItems(x[1..])
  }

  function ForgetFields(x: seq<RefField>): Fields
    decreases x, 0
  {
    if x == [] then [] else [Field(x[0].key, Forget(x[0].value))] + ForgetFields(x[1..])
  }

  /** Objects do not change and an address holds one object: equal addresses mean equal contents. */
  ghost predicate InHeap(heap: map<nat, Value>, r: Ref)
    decreases r, 1
  {
    && r.address in heap && heap[r.address] == r.value
    && match r.value
       case VArr(x) => ItemsInHeap(heap, x)
       case VObj(x) => FieldsInHeap(heap, x)
       case _ => true
  }

  ghost predicate ItemsInHeap(heap: map<nat, Value>, x: seq<Ref>)
    decreases x, 0
  {
    x == [] || (InHeap(heap, x[0]) && ItemsInHeap(heap, x[1..]))
  }

  ghost predicate FieldsInHeap(heap: map<nat, Value>, x: seq<RefField>)
    decreases x, 0
  {
    x == [] || (InHeap(heap, x[0].value) && FieldsInHeap(heap, x[1..]))
  }

  // ---------- the operators as they are ----------

  function Tag(v: Value): int {
    match v
    case VNull => 0
    case VInt(_) => 1
    case VDbl(_) => 1
    case VBool(_) => 2
    case VStr(_) => 3
    case VArr(_) => 4
    case VObj(_) => 5
  }

  function HeldNumber(v: Value): Double
    requires v.VInt? || v.VDbl?
  {
    match v case VInt(i) => Finite(i as real) case VDbl(d) => d
  }

  /** operator== */
  predicate RefEq(a: Ref, b: Ref)
    decreases a, 1
  {
    a.address == b.address ||
    (Tag(a.value) == Tag(b.value) &&
     match a.value
     case VNull => true
     case VInt(_) => DoubleEq(HeldNumber(a.value), HeldNumber(b.value))
     case VDbl(_) => DoubleEq(HeldNumber(a.value), HeldNumber(b.value))
     case VBool(x) => x == b.value.b
     case VStr(x) => x == b.value.s
     case VArr(x) => RefEqItems(x, b.value.items)
     case VObj(x) => RefEqFields(x, b.value.fields))
  }

  predicate RefEqItems(x: seq<Ref>, y: seq<Ref>)
    decreases x, 0
  {
    if x == [] || y == [] then x == [] && y == [] else RefEq(x[0], y[0]) && RefEqItems(x[1..], y[1..])
  }

  predicate RefEqFields(x: seq<RefField>, y: seq<RefField>)
    decreases x, 0
  {
    if x == [] || y == [] then x == [] && y == []
    else x[0].key == y[0].key && RefEq(x[0].value, y[0].value) && RefEqFields(x[1..], y[1..])
  }

  function RefSize(r: Ref): nat
    decreases r, 1
  {
    1 + match r.value case VArr(x) => RefSizeItems(x) case VObj(x) => RefSizeFields(x) case _ => 0
  }

  function RefSizeItems(x: seq<Ref>): nat
    decreases x, 0
  {
    if x == [] then 0 else RefSize(x[0]) + RefSizeItems(x[1..])
  }

  function RefSizeFields(x: seq<RefField>): nat
    decreases x, 0
  {
    if x == [] then 0 else RefSize(x[0].value) + RefSizeFields(x[1..])
  }

  /** operator< */
  predicate RefLess(a: Ref, b: Ref)
    decreases RefSize(a) + RefSize(b), 0
  {
    a.address != b.address &&
    if Tag(a.value) != Tag(b.value) then Tag(a.value) < Tag(b.value) else
    match a.value
    case VNull => false
    case VInt(_) => DoubleLess(HeldNumber(a.value), HeldNumber(b.value))
    case VDbl(_) => DoubleLess(HeldNumber(a.value), HeldNumber(b.value))
    case VBool(x) => !x && b.value.b
    case VStr(x) => Before(x, b.value.s)
    case VArr(x) => RefLessItems(x, b.value.items)
    case VObj(x) => RefLessFields(x, b.value.fields)
  }

  predicate RefLessItems(x: seq<Ref>, y: seq<Ref>)
    decreases RefSizeItems(x) + RefSizeItems(y), 1, |x|
  {
    && y != []
    && (x == [] || RefLess(x[0], y[0]) || (!RefLess(y[0], x[0]) && RefLessItems(x[1..], y[1..])))
  }

  predicate RefLessFields(x: seq<RefField>, y: seq<RefField>)
    decreases RefSizeFields(x) + RefSizeFields(y), 2, |x|
  {
    && y != []
    && (x == [] || RefLessPair(x[0], y[0]) || (!RefLessPair(y[0], x[0]) && RefLessFields(x[1..], y[1..])))
  }

  predicate RefLessPair(p: RefField, q: RefField)
    decreases RefSize(p.value) + RefSize(q.value), 1
  {
    Before(p.key, q.key) || (!Before(q.key, p.key) && RefLess(p.value, q.value))
  }

  // ---------- the short cut ----------

  /**
    Two shared values are equal as trees exactly when operator== says so and they hold no NaN. So the
    address test changes the result exactly for values that it finds equal and that hold a NaN.
   */
  lemma {:induction false} ShortcutExactForEq(heap: map<nat, Value>, a: Ref, b: Ref)
    requires InHeap(heap, a) && InHeap(heap, b)
    ensures Eq(Forget(a), Forget(b)) <==> RefEq(a, b) && NoNaN(Forget(a))
    decreases a, 1
  {
    if a.address == b.address {
      assert a == b;
      EqReflexive(Forget(a));
    } else {
      match a.value
      case VArr(x) => if b.value.VArr? { ShortcutExactForEqItems(heap, x, b.value.items); }
      case VObj(x) => if b.value.VObj? { ShortcutExactForEqFields(heap, x, b.value.fields); }
      case _ =>
    }
  }

  lemma {:induction false} ShortcutExactForEqItems(heap: map<nat, Value>, x: seq<Ref>, y: seq<Ref>)
    requires ItemsInHeap(heap, x) && ItemsInHeap(heap, y)
    ensures EqItems(ForgetItems(x), ForgetItems(y)) <==> RefEqItems(x, y) && NoNaNItems(ForgetItems(x))
    decreases x, 0
  {
    if x != [] {
      assert ForgetItems(x)[1..] == ForgetItems(x[1..]);
      if y != [] {
        assert ForgetItems(y)[1..] == ForgetItems(y[1..]);
        ShortcutExactForEq(heap, x[0], y[0]);
        ShortcutExactForEqItems(heap, x[1..], y[1..]);
      }
    }
  }

  lemma {:induction false} ShortcutExactForEqFields(heap: map<nat, Value>, x: seq<RefField>, y: seq<RefField>)
    requires FieldsInHeap(heap, x) && FieldsInHeap(heap, y)
    ensures EqFields(ForgetFields(x), ForgetFields(y)) <==> RefEqFields(x, y) && NoNaNFields(ForgetFields(x))
    decreases x, 0
  {
    if x != [] {
      assert ForgetFields(x)[1..] == ForgetFields(x[1..]);
      if y != [] {
        assert ForgetFields(y)[1..] == ForgetFields(y[1..]);
        ShortcutExactForEq(heap, x[0].value, y[0].value);
        ShortcutExactForEqFields(heap, x[1..], y[1..]);
      }
    }
  }

  /** Two different arrays that share a NaN are equal to operator==, though not as trees. */
  lemma SharedNaNIsVisible() returns (heap: map<nat, Value>, a: Ref, b: Ref)
    ensures InHeap(heap, a) && InHeap(heap, b) && a.address != b.address
    ensures RefEq(a, b) && !Eq(Forget(a), Forget(b))
  {
    var nan := Ref(0, VDbl(NaN));
    a, b := Ref(1, VArr([nan])), Ref(2, VArr([nan]));
    heap := map[0 := nan.value, 1 := a.value, 2 := b.value];
    assert InHeap(heap, nan) && RefEq(nan, nan) && !NoNaN(Forget(nan));
    assert [nan][1..] == [];
    assert ItemsInHeap(heap, [nan]) && RefEqItems([nan], [nan]);
    assert ForgetItems([nan]) == [Forget(nan)] && !NoNaNItems([Forget(nan)]);
    ShortcutExactForEq(heap, a, b);
  }

  /** The address test in operator< changes no result at all. */
  lemma {:induction false} ShortcutSoundForLess(heap: map<nat, Value>, a: Ref, b: Ref)
    requires InHeap(heap, a) && InHeap(heap, b)
    ensures RefLess(a, b) <==> Less(Forget(a), Forget(b))
    decreases RefSize(a) + RefSize(b), 0
  {
    if a.address == b.address {
      assert a == b;
      LessIrreflexive(Forget(a));
    } else {
      match a.value
      case VArr(x) => if b.value.VArr? { ShortcutSoundForLessItems(heap, x, b.value.items); }
      case VObj(x) => if b.value.VObj? { ShortcutSoundForLessFields(heap, x, b.value.fields); }
      case _ =>
    }
  }

  lemma {:induction false} ShortcutSoundForLessItems(heap: map<nat, Value>, x: seq<Ref>, y: seq<Ref>)
    requires ItemsInHeap(heap, x) && ItemsInHeap(heap, y)
    ensures RefLessItems(x, y) <==> LessItems(ForgetItems(x), ForgetItems(y))
    decreases RefSizeItems(x) + RefSizeItems(y), 1, |x|
  {
    if x != [] && y != [] {
      assert ForgetItems(x)[1..] == ForgetItems(x[1..]) && ForgetItems(y)[1..] == ForgetItems(y[1..]);
      ShortcutSoundForLess(heap, x[0], y[0]);
      ShortcutSoundForLess(heap, y[0], x[0]);
      ShortcutSoundForLessItems(heap, x[1..], y[1..]);
    }
  }

  lemma {:induction false} ShortcutSoundForLessFields(heap: map<nat, Value>, x: seq<RefField>, y: seq<RefField>)
    requires FieldsInHeap(heap, x) && FieldsInHeap(heap, y)
    ensures RefLessFields(x, y) <==> LessFields(ForgetFields(x), ForgetFields(y))
    decreases RefSizeFields(x) + RefSizeFields(y), 2, |x|
  {
    if x != [] && y != [] {
      assert ForgetFields(x)[1..] == ForgetFields(x[1..]) && ForgetFields(y)[1..] == ForgetFields(y[1..]);
      ShortcutSoundForLess(heap, x[0].value, y[0].value);
      ShortcutSoundForLess(heap, y[0].value, x[0].value);
      ShortcutSoundForLessFields(heap, x[1..], y[1..]);
    }
  }

  /** The operators on shared values are a strict total order with its equality, as long as there is no NaN. */
  lemma SharedValuesAreOrdered(heap: map<nat, Value>, a: Ref, b: Ref, c: Ref)
    requires InHeap(heap, a) && InHeap(heap, b) && InHeap(heap, c)
    requires NoNaN(Forget(a)) && NoNaN(Forget(b)) && NoNaN(Forget(c))
    ensures RefLess(a, b) || RefEq(a, b) || RefLess(b, a)
    ensures !(RefLess(a, b) && RefEq(a, b)) && !(RefLess(a, b) && RefLess(b, a)) && !(RefEq(a, b) && RefLess(b, a))
    ensures RefLess(a, b) && RefLess(b, c) ==> RefLess(a, c)
    ensures RefEq(a, b) && RefLess(b, c) ==> RefLess(a, c)
    ensures RefEq(a, b) && RefEq(b, c) ==> RefEq(a, c)
  {
    hide InHeap, NoNaN, Forget, RefLess, RefEq, Less, Eq;
    ShortcutExactForEq(heap, a, b);
    ShortcutExactForEq(heap, b, c);
    ShortcutExactForEq(heap, a, c);
    ShortcutSoundForLess(heap, a, b);
    ShortcutSoundForLess(heap, b, a);
    ShortcutSoundForLess(heap, b, c);
    ShortcutSoundForLess(heap, a, c);
    Trichotomy(Forget(a), Forget(b));
    Transitivity(Forget(a), Forget(b), Forget(c));
  }

  // ---------- what the operators mean ----------

  lemma {:induction false} ForgetAt(x: seq<Ref>)
    ensures |ForgetItems(x)| == |x| && forall k :: 0 <= k < |x| ==> ForgetItems(x)[k] == Forget(x[k])
    decreases |x|
  {
    hide Forget;
    if x != [] {
      ForgetAt(x[1..]);
      assert forall k :: 0 < k < |x| ==> x[k] == x[1..][k - 1];
    }
  }

  lemma {:induction false} ForgetFieldsAt(x: seq<RefField>)
    ensures |ForgetFields(x)| == |x|
    ensures forall k :: 0 <= k < |x| ==> ForgetFields(x)[k] == Field(x[k].key, Forget(x[k].value))
    decreases |x|
  {
    hide Forget;
    if x != [] {
      ForgetFieldsAt(x[1..]);
      assert forall k :: 0 < k < |x| ==> x[k] == x[1..][k - 1];
    }
  }

  lemma {:induction false} ItemInHeap(heap: map<nat, Value>, x: seq<Ref>, k: nat)
    requires ItemsInHeap(heap, x) && k < |x|
    ensures InHeap(heap, x[k])
    decreases |x|
  {
    if k > 0 {
      ItemInHeap(heap, x[1..], k - 1);
    }
  }

  lemma {:induction false} FieldInHeap(heap: map<nat, Value>, x: seq<RefField>, k: nat)
    requires FieldsInHeap(heap, x) && k < |x|
    ensures InHeap(heap, x[k].value)
    decreases |x|
  {
    if k > 0 {
      FieldInHeap(heap, x[1..], k - 1);
    }
  }

  /** Neither below the other; without NaN that is operator==. */
  ghost predicate RefTied(a: Ref, b: Ref) {
    if NoNaN(Forget(a)) && NoNaN(Forget(b)) then RefEq(a, b) else !RefLess(a, b) && !RefLess(b, a)
  }

  ghost predicate RefItemsDecide(x: seq<Ref>, y: seq<Ref>, k: nat) {
    && k <= |x| && k < |y| && (forall j :: 0 <= j < k ==> RefTied(x[j], y[j]))
    && (k == |x| || RefLess(x[k], y[k]))
  }

  ghost predicate RefFieldsDecide(x: seq<RefField>, y: seq<RefField>, k: nat) {
    && k <= |x| && k < |y| && (forall j :: 0 <= j < k ==> x[j].key == y[j].key && RefTied(x[j].value, y[j].value))
    && (|| k == |x| || (exists n: nat :: BytesDecide(x[k].key, y[k].key, n))
        || (x[k].key == y[k].key && RefLess(x[k].value, y[k].value)))
  }

  lemma TiedAgree(heap: map<nat, Value>, a: Ref, b: Ref)
    requires InHeap(heap, a) && InHeap(heap, b)
    ensures RefTied(a, b) <==> Tied(Forget(a), Forget(b))
    ensures RefLess(a, b) <==> Less(Forget(a), Forget(b))
  {
    hide InHeap, NoNaN, Forget, RefLess, RefEq, Less, Eq;
    ShortcutExactForEq(heap, a, b);
    ShortcutSoundForLess(heap, a, b);
    ShortcutSoundForLess(heap, b, a);
  }

  lemma ItemsDecideAgree(heap: map<nat, Value>, x: seq<Ref>, y: seq<Ref>, k: nat)
    requires ItemsInHeap(heap, x) && ItemsInHeap(heap, y)
    ensures RefItemsDecide(x, y, k) <==> ItemsDecide(ForgetItems(x), ForgetItems(y), k)
  {
    hide RefTied, Tied, RefLess, Less, Forget, ForgetItems, ItemsInHeap, InHeap;
    ForgetAt(x);
    ForgetAt(y);
    forall j | 0 <= j < |x| && j < |y|
      ensures RefTied(x[j], y[j]) <==> Tied(Forget(x[j]), Forget(y[j]))
      ensures RefLess(x[j], y[j]) <==> Less(Forget(x[j]), Forget(y[j]))
    {
      ItemInHeap(heap, x, j);
      ItemInHeap(heap, y, j);
      TiedAgree(heap, x[j], y[j]);
    }
  }

  lemma FieldsDecideAgree(heap: map<nat, Value>, x: seq<RefField>, y: seq<RefField>, k: nat)
    requires FieldsInHeap(heap, x) && FieldsInHeap(heap, y)
    ensures RefFieldsDecide(x, y, k) <==> FieldsDecide(ForgetFields(x), ForgetFields(y), k)
  {
    hide RefTied, Tied, RefLess, Less, Forget, ForgetFields, FieldsInHeap, InHeap, BytesDecide;
    ForgetFieldsAt(x);
    ForgetFieldsAt(y);
    forall j | 0 <= j < |x| && j < |y|
      ensures RefTied(x[j].value, y[j].value) <==> Tied(Forget(x[j].value), Forget(y[j].value))
      ensures RefLess(x[j].value, y[j].value) <==> Less(Forget(x[j].value), Forget(y[j].value))
    {
      FieldInHeap(heap, x, j);
      FieldInHeap(heap, y, j);
      TiedAgree(heap, x[j].value, y[j].value);
    }
  }

  /** operator< on any two handles of a heap. */
  lemma RefLessMeans(heap: map<nat, Value>, a: Ref, b: Ref)
    requires InHeap(heap, a) && InHeap(heap, b)
    ensures var v, w := a.value, b.value;
            RefLess(a, b) <==>
            || KindBefore(Forget(a), Forget(b))
            || NumberBelow(Forget(a), Forget(b))
            || (v.VBool? && w.VBool? && !v.b && w.b)
            || (v.VStr? && w.VStr? && exists k: nat :: BytesDecide(v.s, w.s, k))
            || (v.VArr? && w.VArr? && exists k: nat :: RefItemsDecide(v.items, w.items, k))
            || (v.VObj? && w.VObj? && exists k: nat :: RefFieldsDecide(v.fields, w.fields, k))
  {
    hide RefLess, Less, KindBefore, NumberBelow, BytesDecide, ItemsDecide, FieldsDecide, RefItemsDecide,
         RefFieldsDecide, ItemsInHeap, FieldsInHeap, ForgetItems, ForgetFields;
    ShortcutSoundForLess(heap, a, b);
    LessMeans(Forget(a), Forget(b));
    forall k: nat | a.value.VArr? && b.value.VArr?
      ensures RefItemsDecide(a.value.items, b.value.items, k) <==>
              ItemsDecide(Forget(a).items, Forget(b).items, k)
    {
      ItemsDecideAgree(heap, a.value.items, b.value.items, k);
    }
    forall k: nat | a.value.VObj? && b.value.VObj?
      ensures RefFieldsDecide(a.value.fields, b.value.fields, k) <==>
              FieldsDecide(Forget(a).fields, Forget(b).fields, k)
    {
      FieldsDecideAgree(heap, a.value.fields, b.value.fields, k);
    }
  }

  lemma {:induction false} RefEqItemsMeans(x: seq<Ref>, y: seq<Ref>)
    ensures RefEqItems(x, y) <==> |x| == |y| && forall k :: 0 <= k < |x| ==> RefEq(x[k], y[k])
    decreases |x|
  {
    hide RefEq;
    if x != [] && y != [] {
      RefEqItemsMeans(x[1..], y[1..]);
      assert forall k :: 0 < k < |x| ==> x[k] == x[1..][k - 1];
      assert forall k :: 0 < k < |y| ==> y[k] == y[1..][k - 1];
    }
  }

  lemma {:induction false} RefEqFieldsMeans(x: seq<RefField>, y: seq<RefField>)
    ensures RefEqFields(x, y) <==>
            |x| == |y| && forall k :: 0 <= k < |x| ==> x[k].key == y[k].key && RefEq(x[k].value, y[k].value)
    decreases |x|
  {
    hide RefEq;
    if x != [] && y != [] {
      RefEqFieldsMeans(x[1..], y[1..]);
      assert forall k :: 0 < k < |x| ==> x[k] == x[1..][k - 1];
      assert forall k :: 0 < k < |y| ==> y[k] == y[1..][k - 1];
    }
  }

  /** operator== on any two handles: the same object, or the same contents part by part. */
  lemma RefEqMeans(a: Ref, b: Ref)
    ensures var v, w := a.value, b.value;
            RefEq(a, b) <==>
            || a.address == b.address
            || (v.VNull? && w.VNull?)
            || NumberSame(Forget(a), Forget(b))
            || (v.VBool? && w.VBool? && v.b == w.b)
            || (v.VStr? && w.VStr? && v.s == w.s)
            || (&& v.VArr? && w.VArr? && |v.items| == |w.items|
                && forall k :: 0 <= k < |v.items| ==> RefEq(v.items[k], w.items[k]))
            || (&& v.VObj? && w.VObj? && |v.fields| == |w.fields|
                && forall k :: 0 <= k < |v.fields| ==>
                     v.fields[k].key == w.fields[k].key && RefEq(v.fields[k].value, w.fields[k].value))
  {
    match a.value
    case VArr(x) => if b.value.VArr? { hide RefEqItems, NumberSame; RefEqItemsMeans(x, b.value.items); }
    case VObj(x) => if b.value.VObj? { hide RefEqFields, NumberSame; RefEqFieldsMeans(x, b.value.fields); }
    case _ =>
      var m, n := Forget(a), Forget(b);
      if (m.Int? || m.Dbl?) && (n.Int? || n.Dbl?) {
        NumbersMean(m, n);
      }
  }
}
