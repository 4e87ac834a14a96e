/** json11's comparison operators on trees of values: a strict total order as long as there is no NaN. */
module JsonOrder {
  import opened JsonValue

  // ---------- comparison of trees ----------

  /** The rank of the type tags. */
  function Rank(v: Json): int {
    match v
    case Null => 0
    case Int(_) => 1
    case Dbl(_) => 1
    case Bool(_) => 2
    case Str(_) => 3
    case Arr(_) => 4
    case Obj(_) => 5
  }

  /** The double a number is compared as; every int is exactly a double. */
  function Number(v: Json): Double
    requires v.Int? || v.Dbl?
  {
    match v case Int(i) => Finite(i as real) case Dbl(d) => d
  }

  predicate DoubleEq(a: Double, b: Double) {
    !a.NaN? && a == b
  }

  predicate DoubleLess(a: Double, b: Double) {
    match (a, b)
    case (NaN, _) => false
    case (_, NaN) => false
    case (Finite(x), Finite(y)) => x < y
    case (NegInf, _) => !b.NegInf?
    case (_, PosInf) => !a.PosInf?
    case _ => false
  }

  predicate Eq(a: Json, b: Json)
    decreases a, 1
  {
    Rank(a) == Rank(b) &&
    match a
    case Null => true
    case Int(_) => DoubleEq(Number(a), Number(b))
    case Dbl(_) => DoubleEq(Number(a), Number(b))
    case Bool(x) => x == b.b
    case Str(x) => x == b.s
    case Arr(x) => EqItems(x, b.items)
    case Obj(x) => EqFields(x, b.fields)
  }

  predicate EqItems(x: seq<Json>, y: seq<Json>)
    decreases x, 0
  {
    if x == [] || y == [] then x == [] && y == [] else Eq(x[0], y[0]) && EqItems(x[1..], y[1..])
  }

  predicate EqFields(x: Fields, y: Fields)
    decreases x, 0
  {
    if x == [] || y == [] then x == [] && y == []
    else x[0].key == y[0].key && Eq(x[0].value, y[0].value) && EqFields(x[1..], y[1..])
  }

  function Size(v: Json): nat
    decreases v, 1
  {
    1 + match v case Arr(x) => SizeItems(x) case Obj(x) => SizeFields(x) case _ => 0
  }

  function SizeItems(x: seq<Json>): nat
    decreases x, 0
  {
    if x == [] then 0 else Size(x[0]) + SizeItems(x[1..])
  }

  function SizeFields(x: Fields): nat
    decreases x, 0
  {
    if x == [] then 0 else Size(x[0].value) + SizeFields(x[1..])
  }

  predicate Less(a: Json, b: Json)
    decreases Size(a) + Size(b), 0
  {
    if Rank(a) != Rank(b) then Rank(a) < Rank(b) else
    match a
    case Null => false
    case Int(_) => DoubleLess(Number(a), Number(b))
    case Dbl(_) => DoubleLess(Number(a), Number(b))
    case Bool(x) => !x && b.b
    case Str(x) => Before(x, b.s)
    case Arr(x) => LessItems(x, b.items)
    case Obj(x) => LessFields(x, b.fields)
  }

  /** std::lexicographical_compare: the first pair that differs either way decides. */
  predicate LessItems(x: seq<Json>, y: seq<Json>)
    decreases SizeItems(x) + SizeItems(y), 1, |x|
  {
    && y != []
    && (x == [] || Less(x[0], y[0]) || (!Less(y[0], x[0]) && LessItems(x[1..], y[1..])))
  }

  predicate LessFields(x: Fields, y: Fields)
    decreases SizeFields(x) + SizeFields(y), 2, |x|
  {
    && y != []
    && (x == [] || LessPair(x[0], y[0]) || (!LessPair(y[0], x[0]) && LessFields(x[1..], y[1..])))
  }

  /** std::pair's order. */
  predicate LessPair(p: Field, q: Field)
    decreases Size(p.value) + Size(q.value), 1
  {
    Before(p.key, q.key) || (!Before(q.key, p.key) && Less(p.value, q.value))
  }

  // ---------- a three-way comparison that both operators project ----------

  ghost function CmpBytes(a: Bytes, b: Bytes): int {
    if Before(a, b) then -1 else if a == b then 0 else 1
  }

  ghost function CmpDouble(a: Double, b: Double): int {
    if DoubleLess(a, b) then -1 else if DoubleEq(a, b) then 0 else 1
  }

  ghost function CmpBool(a: bool, b: bool): int {
    if a == b then 0 else if b then -1 else 1
  }

  ghost function Cmp(a: Json, b: Json): int
    decreases a, 1
  {
    if Rank(a) != Rank(b) then (if Rank(a) < Rank(b) then -1 else 1) else
    match a
    case Null => 0
    case Int(_) => CmpDouble(Number(a), Number(b))
    case Dbl(_) => CmpDouble(Number(a), Number(b))
    case Bool(x) => CmpBool(x, b.b)
    case Str(x) => CmpBytes(x, b.s)
    case Arr(x) => CmpItems(x, b.items)
    case Obj(x) => CmpFields(x, b.fields)
  }

  ghost function CmpItems(x: seq<Json>, y: seq<Json>): int
    decreases x, 0
  {
    if x == [] then (if y == [] then 0 else -1)
    else if y == [] then 1
    else var c := Cmp(x[0], y[0]); if c != 0 then c else CmpItems(x[1..], y[1..])
  }

  ghost function CmpFields(x: Fields, y: Fields): int
    decreases x, 0
  {
    if x == [] then (if y == [] then 0 else -1)
    else if y == [] then 1
    else
      var k := CmpBytes(x[0].key, y[0].key);
      if k != 0 then k else
      var c := Cmp(x[0].value, y[0].value);
      if c != 0 then c else CmpFields(x[1..], y[1..])
  }

  ghost predicate NoNaN(v: Json)
    decreases v, 1
  {
    match v
    case Dbl(d) => !d.NaN?
    case Arr(x) => NoNaNItems(x)
    case Obj(x) => NoNaNFields(x)
    case _ => true
  }

  ghost predicate NoNaNItems(x: seq<Json>)
    decreases x, 0
  {
    x == [] || (NoNaN(x[0]) && NoNaNItems(x[1..]))
  }

  ghost predicate NoNaNFields(x: Fields)
    decreases x, 0
  {
    x == [] || (NoNaN(x[0].value) && NoNaNFields(x[1..]))
  }

  /** Agreement of the two operators, in both directions, with a comparison result. */
  ghost predicate Agree(c: int, less: bool, eq: bool, greater: bool) {
    c in {-1, 0, 1} && (less <==> c == -1) && (eq <==> c == 0) && (greater <==> c == 1)
  }

  lemma {:induction false} CmpAgrees(a: Json, b: Json)
    requires NoNaN(a) && NoNaN(b)
    ensures Agree(Cmp(a, b), Less(a, b), Eq(a, b), Less(b, a))
    decreases a, 1
  {
    if Rank(a) == Rank(b) {
      match a
      case Str(x) => BeforeTotal(x, b.s);
      case Arr(x) => CmpItemsAgrees(x, b.items);
      case Obj(x) => CmpFieldsAgrees(x, b.fields);
      case _ =>
    }
  }

  lemma {:induction false} CmpItemsAgrees(x: seq<Json>, y: seq<Json>)
    requires NoNaNItems(x) && NoNaNItems(y)
    ensures Agree(CmpItems(x, y), LessItems(x, y), EqItems(x, y), LessItems(y, x))
    decreases x, 0
  {
    if x != [] && y != [] {
      CmpAgrees(x[0], y[0]);
      CmpItemsAgrees(x[1..], y[1..]);
    }
  }

  lemma {:induction false} CmpFieldsAgrees(x: Fields, y: Fields)
    requires NoNaNFields(x) && NoNaNFields(y)
    ensures Agree(CmpFields(x, y), LessFields(x, y), EqFields(x, y), LessFields(y, x))
    decreases x, 0
  {
    if x != [] && y != [] {
      BeforeTotal(x[0].key, y[0].key);
      CmpAgrees(x[0].value, y[0].value);
      CmpFieldsAgrees(x[1..], y[1..]);
    }
  }

  /** What comparing in a chain yields: nothing decides twice. */
  ghost predicate Chains(ab: int, bc: int, ac: int) {
    (ab <= 0 && bc <= 0 ==> ac == if ab < bc then ab else bc)
  }

  lemma CmpBytesChains(a: Bytes, b: Bytes, c: Bytes)
    ensures Chains(CmpBytes(a, b), CmpBytes(b, c), CmpBytes(a, c))
  {
    if Before(a, b) && Before(b, c) {
      BeforeTransitive(a, b, c);
    }
  }

  lemma {:induction false} CmpChains(a: Json, b: Json, c: Json)
    requires NoNaN(a) && NoNaN(b) && NoNaN(c)
    ensures Chains(Cmp(a, b), Cmp(b, c), Cmp(a, c))
    decreases a, 1
  {
    if Rank(a) == Rank(b) == Rank(c) {
      match a
      case Str(x) => CmpBytesChains(x, b.s, c.s);
      case Arr(x) => CmpItemsChains(x, b.items, c.items);
      case Obj(x) => CmpFieldsChains(x, b.fields, c.fields);
      case _ =>
    } else {
      CmpAgrees(a, b);
      CmpAgrees(b, c);
    }
  }

  lemma {:induction false} CmpItemsChains(x: seq<Json>, y: seq<Json>, z: seq<Json>)
    requires NoNaNItems(x) && NoNaNItems(y) && NoNaNItems(z)
    ensures Chains(CmpItems(x, y), CmpItems(y, z), CmpItems(x, z))
    decreases x, 0
  {
    if x != [] && y != [] && z != [] {
      CmpChains(x[0], y[0], z[0]);
      CmpItemsChains(x[1..], y[1..], z[1..]);
    }
    CmpItemsAgrees(x, y);
    CmpItemsAgrees(y, z);
  }

  lemma {:induction false} CmpFieldsChains(x: Fields, y: Fields, z: Fields)
    requires NoNaNFields(x) && NoNaNFields(y) && NoNaNFields(z)
    ensures Chains(CmpFields(x, y), CmpFields(y, z), CmpFields(x, z))
    decreases x, 0
  {
    if x != [] && y != [] && z != [] {
      CmpBytesChains(x[0].key, y[0].key, z[0].key);
      CmpChains(x[0].value, y[0].value, z[0].value);
      CmpFieldsChains(x[1..], y[1..], z[1..]);
    }
    CmpFieldsAgrees(x, y);
    CmpFieldsAgrees(y, z);
  }

  // ---------- main results on trees ----------

  /** On trees without NaN exactly one of less, equal and greater holds. */
  lemma Trichotomy(a: Json, b: Json)
    requires NoNaN(a) && NoNaN(b)
    ensures Less(a, b) || Eq(a, b) || Less(b, a)
    ensures !(Less(a, b) && Eq(a, b)) && !(Less(a, b) && Less(b, a)) && !(Eq(a, b) && Less(b, a))
    ensures Eq(a, a) && (Eq(a, b) <==> Eq(b, a))
  {
    CmpAgrees(a, b);
    CmpAgrees(b, a);
    CmpAgrees(a, a);
  }

  /** The order is transitive, and compatible with equality on either side. */
  lemma Transitivity(a: Json, b: Json, c: Json)
    requires NoNaN(a) && NoNaN(b) && NoNaN(c)
    ensures Less(a, b) && Less(b, c) ==> Less(a, c)
    ensures Eq(a, b) && Less(b, c) ==> Less(a, c)
    ensures Less(a, b) && Eq(b, c) ==> Less(a, c)
    ensures Eq(a, b) && Eq(b, c) ==> Eq(a, c)
  {
    CmpAgrees(a, b);
    CmpAgrees(b, c);
    CmpAgrees(a, c);
    CmpChains(a, b, c);
  }

  // ---------- comparing a tree with itself ----------

  /** A tree equals itself exactly when it holds no NaN. */
  lemma {:induction false} EqReflexive(v: Json)
    ensures Eq(v, v) <==> NoNaN(v)
    decreases v, 1
  {
    match v
    case Arr(x) => EqItemsReflexive(x);
    case Obj(x) => EqFieldsReflexive(x);
    case _ =>
  }

  lemma {:induction false} EqItemsReflexive(x: seq<Json>)
    ensures EqItems(x, x) <==> NoNaNItems(x)
    decreases x, 0
  {
    if x != [] {
      EqReflexive(x[0]);
      EqItemsReflexive(x[1..]);
    }
  }

  lemma {:induction false} EqFieldsReflexive(x: Fields)
    ensures EqFields(x, x) <==> NoNaNFields(x)
    decreases x, 0
  {
    if x != [] {
      EqReflexive(x[0].value);
      EqFieldsReflexive(x[1..]);
    }
  }

  /** No tree is below itself, NaN or not. */
  lemma {:induction false} LessIrreflexive(v: Json)
    ensures !Less(v, v)
    decreases v, 1
  {
    match v
    case Str(x) => BeforeTotal(x, x);
    case Arr(x) => LessItemsIrreflexive(x);
    case Obj(x) => LessFieldsIrreflexive(x);
    case _ =>
  }

  lemma {:induction false} LessItemsIrreflexive(x: seq<Json>)
    ensures !LessItems(x, x)
    decreases x, 0
  {
    if x != [] {
      LessIrreflexive(x[0]);
      LessItemsIrreflexive(x[1..]);
    }
  }

  lemma {:induction false} LessFieldsIrreflexive(x: Fields)
    ensures !LessFields(x, x)
    decreases x, 0
  {
    if x != [] {
      BeforeTotal(x[0].key, x[0].key);
      LessIrreflexive(x[0].value);
      LessFieldsIrreflexive(x[1..]);
    }
  }

  /** Less and equal decide between a tree and itself exactly when it holds no NaN, so the order needs that. */
  lemma OrderNeedsNoNaN(v: Json)
    ensures Less(v, v) || Eq(v, v) <==> NoNaN(v)
  {
    EqReflexive(v);
    LessIrreflexive(v);
  }

  // ---------- what the operators mean ----------

  /** The kinds in the order null, number, truth value, string, array, object. */
  ghost predicate KindBefore(a: Json, b: Json) {
    || (a.Null? && !b.Null?)
    || ((a.Int? || a.Dbl?) && !(b.Null? || b.Int? || b.Dbl?))
    || (a.Bool? && (b.Str? || b.Arr? || b.Obj?))
    || (a.Str? && (b.Arr? || b.Obj?))
    || (a.Arr? && b.Obj?)
  }

  /** An int, or a double that is finite, and the real number it is. */
  ghost predicate IsReal(v: Json, r: real) {
    (v.Int? && r == v.i as real) || (v.Dbl? && v.d == Finite(r))
  }

  ghost predicate IsFinite(v: Json) {
    v.Int? || (v.Dbl? && v.d.Finite?)
  }

  /** Real numbers in their order, minus infinity below and plus infinity above all others; NaN has no place. */
  ghost predicate NumberBelow(a: Json, b: Json) {
    || (exists x, y :: IsReal(a, x) && IsReal(b, y) && x < y)
    || (a == Dbl(NegInf) && (IsFinite(b) || b == Dbl(PosInf)))
    || (IsFinite(a) && b == Dbl(PosInf))
  }

  ghost predicate NumberSame(a: Json, b: Json) {
    || (exists x :: IsReal(a, x) && IsReal(b, x))
    || (a == b && (a == Dbl(NegInf) || a == Dbl(PosInf)))
  }

  /** Alike up to `k`, where the first string ends or has the smaller byte. */
  ghost predicate BytesDecide(a: Bytes, b: Bytes, k: nat) {
    k <= |a| && k < |b| && a[..k] == b[..k] && (k == |a| || a[k] < b[k])
  }

  /** Neither below the other. Without NaN that is equality. */
  ghost predicate Tied(a: Json, b: Json) {
    if NoNaN(a) && NoNaN(b) then Eq(a, b) else !Less(a, b) && !Less(b, a)
  }

  /** Tied up to `k`, where the first array ends or has the smaller element. */
  ghost predicate ItemsDecide(x: seq<Json>, y: seq<Json>, k: nat) {
    && k <= |x| && k < |y| && (forall j :: 0 <= j < k ==> Tied(x[j], y[j]))
    && (k == |x| || Less(x[k], y[k]))
  }

  /** Keys equal and values tied up to `k`, where the first object ends or has the smaller key, or then value. */
  ghost predicate FieldsDecide(x: Fields, y: Fields, k: nat) {
    && k <= |x| && k < |y| && (forall j :: 0 <= j < k ==> x[j].key == y[j].key && Tied(x[j].value, y[j].value))
    && (|| k == |x| || (exists n: nat :: BytesDecide(x[k].key, y[k].key, n))
        || (x[k].key == y[k].key && Less(x[k].value, y[k].value)))
  }

  lemma TiedIff(a: Json, b: Json)
    ensures Tied(a, b) <==> !Less(a, b) && !Less(b, a)
  {
    if NoNaN(a) && NoNaN(b) {
      Trichotomy(a, b);
    }
  }

  lemma {:induction false} BeforeMeans(a: Bytes, b: Bytes)
    ensures Before(a, b) <==> exists k: nat :: BytesDecide(a, b, k)
    decreases |a|
  {
    if a == [] {
      assert b != [] ==> BytesDecide(a, b, 0);
    } else if b != [] {
      if a[0] < b[0] {
        assert BytesDecide(a, b, 0);
      } else if a[0] == b[0] {
        BeforeMeans(a[1..], b[1..]);
        if k: nat :| BytesDecide(a[1..], b[1..], k) {
          var n := k + 1;
          assert a[..n] == [a[0]] + a[1..][..k] && b[..n] == [b[0]] + b[1..][..k];
          assert BytesDecide(a, b, n);
        }
        if k: nat :| BytesDecide(a, b, k) {
          assert a[1..][..k - 1] == a[..k][1..] && b[1..][..k - 1] == b[..k][1..];
          assert BytesDecide(a[1..], b[1..], k - 1);
        }
      } else {
        forall k: nat ensures !BytesDecide(a, b, k) {
          assert 0 < k <= |a| && k <= |b| ==> a[..k][0] == a[0] && b[..k][0] == b[0];
        }
      }
    }
  }

  lemma {:induction false} LessItemsMeans(x: seq<Json>, y: seq<Json>)
    ensures LessItems(x, y) <==> exists k: nat :: ItemsDecide(x, y, k)
    decreases |x|
  {
    hide Less, Tied;
    if x == [] || y == [] {
      assert x == [] && y != [] ==> ItemsDecide(x, y, 0);
    } else {
      TiedIff(x[0], y[0]);
      LessItemsMeans(x[1..], y[1..]);
      if Less(x[0], y[0]) {
        assert ItemsDecide(x, y, 0);
      }
      if k: nat :| ItemsDecide(x, y, k) && k > 0 {
        assert ItemsDecide(x[1..], y[1..], k - 1);
      }
      if k: nat :| ItemsDecide(x[1..], y[1..], k) && Tied(x[0], y[0]) {
        assert forall j :: 0 < j < k + 1 ==> x[j] == x[1..][j - 1] && y[j] == y[1..][j - 1];
        assert ItemsDecide(x, y, k + 1);
      }
    }
  }

  lemma LessPairMeans(p: Field, q: Field)
    ensures LessPair(p, q) <==>
            (exists n: nat :: BytesDecide(p.key, q.key, n)) || (p.key == q.key && Less(p.value, q.value))
    ensures p.key == q.key && Tied(p.value, q.value) <==> !LessPair(p, q) && !LessPair(q, p)
  {
    hide Less, Tied;
    BeforeMeans(p.key, q.key);
    BeforeTotal(p.key, q.key);
    TiedIff(p.value, q.value);
  }

  lemma {:induction false} LessFieldsMeans(x: Fields, y: Fields)
    ensures LessFields(x, y) <==> exists k: nat :: FieldsDecide(x, y, k)
    decreases |x|
  {
    hide Less, Tied, LessPair, BytesDecide;
    if x == [] || y == [] {
      assert x == [] && y != [] ==> FieldsDecide(x, y, 0);
    } else {
      LessPairMeans(x[0], y[0]);
      LessFieldsMeans(x[1..], y[1..]);
      if LessPair(x[0], y[0]) {
        assert FieldsDecide(x, y, 0);
      }
      if k: nat :| FieldsDecide(x, y, k) && k > 0 {
        assert FieldsDecide(x[1..], y[1..], k - 1);
      }
      if k: nat :| FieldsDecide(x[1..], y[1..], k) && x[0].key == y[0].key && Tied(x[0].value, y[0].value) {
        assert forall j :: 0 < j < k + 1 ==> x[j] == x[1..][j - 1] && y[j] == y[1..][j - 1];
        assert FieldsDecide(x, y, k + 1);
      }
    }
  }

  /** operator< on any two trees, NaN or not. */
  lemma LessMeans(a: Json, b: Json)
    ensures Less(a, b) <==>
            || KindBefore(a, b)
            || NumberBelow(a, b)
            || (a.Bool? && b.Bool? && !a.b && b.b)
            || (a.Str? && b.Str? && exists k: nat :: BytesDecide(a.s, b.s, k))
            || (a.Arr? && b.Arr? && exists k: nat :: ItemsDecide(a.items, b.items, k))
            || (a.Obj? && b.Obj? && exists k: nat :: FieldsDecide(a.fields, b.fields, k))
  {
    hide BytesDecide, ItemsDecide, FieldsDecide, LessItems, LessFields, Before;
    match a
    case Str(x) => if b.Str? { BeforeMeans(x, b.s); }
    case Arr(x) => if b.Arr? { LessItemsMeans(x, b.items); }
    case Obj(x) => if b.Obj? { LessFieldsMeans(x, b.fields); }
    case _ =>
      if (a.Int? || a.Dbl?) && (b.Int? || b.Dbl?) {
        NumbersMean(a, b);
      }
  }

  lemma NumbersMean(a: Json, b: Json)
    requires (a.Int? || a.Dbl?) && (b.Int? || b.Dbl?)
    ensures DoubleLess(Number(a), Number(b)) <==> NumberBelow(a, b)
    ensures DoubleEq(Number(a), Number(b)) <==> NumberSame(a, b)
  {
    if IsFinite(a) && IsFinite(b) {
      assert IsReal(a, Number(a).r) && IsReal(b, Number(b).r);
    }
  }

  lemma {:induction false} EqItemsMeans(x: seq<Json>, y: seq<Json>)
    ensures EqItems(x, y) <==> |x| == |y| && forall k :: 0 <= k < |x| ==> Eq(x[k], y[k])
    decreases |x|
  {
    hide Eq;
    if x != [] && y != [] {
      EqItemsMeans(x[1..], y[1..]);
      assert forall k :: 0 < k < |x| ==> x[k] == x[1..][k - 1];
      assert forall k :: 0 < k < |y| ==> y[k] == y[1..][k - 1];
    }
  }

  lemma {:induction false} EqFieldsMeans(x: Fields, y: Fields)
    ensures EqFields(x, y) <==>
            |x| == |y| && forall k :: 0 <= k < |x| ==> x[k].key == y[k].key && Eq(x[k].value, y[k].value)
    decreases |x|
  {
    hide Eq;
    if x != [] && y != [] {
      EqFieldsMeans(x[1..], y[1..]);
      assert forall k :: 0 < k < |x| ==> x[k] == x[1..][k - 1];
      assert forall k :: 0 < k < |y| ==> y[k] == y[1..][k - 1];
    }
  }

  /** Equality of any two trees, NaN or not. */
  lemma EqMeans(a: Json, b: Json)
    ensures Eq(a, b) <==>
            || (a.Null? && b.Null?)
            || NumberSame(a, b)
            || (a.Bool? && b.Bool? && a.b == b.b)
            || (a.Str? && b.Str? && a.s == b.s)
            || (&& a.Arr? && b.Arr? && |a.items| == |b.items|
                && forall k :: 0 <= k < |a.items| ==> Eq(a.items[k], b.items[k]))
            || (&& a.Obj? && b.Obj? && |a.fields| == |b.fields|
                && forall k :: 0 <= k < |a.fields| ==>
                     a.fields[k].key == b.fields[k].key && Eq(a.fields[k].value, b.fields[k].value))
  {
    match a
    case Arr(x) => if b.Arr? { hide EqItems; EqItemsMeans(x, b.items); }
    case Obj(x) => if b.Obj? { hide EqFields; EqFieldsMeans(x, b.fields); }
    case _ =>
      if (a.Int? || a.Dbl?) && (b.Int? || b.Dbl?) {
        NumbersMean(a, b);
      }
  }
}
