/** The values json11 works on: byte strings, doubles, and trees of JSON values. */
module JsonValue {
  import opened Wrappers

  type byte = b: int | 0 <= b < 256
  type Bytes = seq<byte>

  /** Doubles as extended reals; how many of the reals are doubles does not matter here. */
  datatype Double = NaN | NegInf | Finite(r: real) | PosInf

  datatype Json =
    | Null
    | Int(i: int)
    | Dbl(d: Double)
    | Bool(b: bool)
    | Str(s: Bytes)
    | Arr(items: seq<Json>)
    | Obj(fields: Fields)

  datatype Field = Field(key: Bytes, value: Json)

  /** The contents of a std::map: key and value pairs in key order. */
  type Fields = seq<Field>

  predicate IsInt32(n: int) {
    -0x8000_0000 <= n < 0x8000_0000
  }

  const SPACE: byte := 0x20

  function Pow10(n: nat): nat {
    if n == 0 then 1 else 10 * Pow10(n - 1)
  }

  /** The byte at a position; reading at the end gives the terminator. */
  function Char(s: Bytes, i: nat): byte
    requires i <= |s|
  {
    if i == |s| then 0 else s[i]
  }

  // ---------- byte strings in order ----------

  /** std::string's order: unsigned bytes, a proper prefix first. */
  predicate Before(a: Bytes, b: Bytes) {
    b != [] && (a == [] || a[0] < b[0] || (a[0] == b[0] && Before(a[1..], b[1..])))
  }

  lemma {:induction false} BeforeTotal(a: Bytes, b: Bytes)
    ensures Before(a, b) || a == b || Before(b, a)
    ensures !(Before(a, b) && Before(b, a)) && !Before(a, a)
  {
    if a != [] {
      BeforeTotal(a[1..], a[1..]);
      if b != [] {
        BeforeTotal(a[1..], b[1..]);
        assert a[0] == b[0] && a[1..] == b[1..] ==> a == b by {
          assert a == [a[0]] + a[1..] && b == [b[0]] + b[1..];
        }
      }
    }
  }

  lemma {:induction false} BeforeTransitive(a: Bytes, b: Bytes, c: Bytes)
    requires Before(a, b) && Before(b, c)
    ensures Before(a, c)
  {
    if a != [] && a[0] == b[0] == c[0] {
      BeforeTransitive(a[1..], b[1..], c[1..]);
    }
  }

  // ---------- maps ----------

  /** Keys in strictly increasing order. */
  predicate Sorted(o: Fields) {
    forall m, n :: 0 <= m < n < |o| ==> Before(o[m].key, o[n].key)
  }

  function Lookup(o: Fields, k: Bytes): Option<Json> {
    if o == [] then None else if o[0].key == k then Some(o[0].value) else Lookup(o[1..], k)
  }

  /** `data[k] = v` on a map. */
  function Put(o: Fields, k: Bytes, v: Json): (r: Fields)
    ensures |r| >= 1
  {
    if o == [] then [Field(k, v)]
    else if k == o[0].key then [Field(k, v)] + o[1..]
    else if Before(k, o[0].key) then [Field(k, v)] + o
    else [o[0]] + Put(o[1..], k, v)
  }

  lemma {:induction false} PutKeys(o: Fields, k: Bytes, v: Json)
    ensures forall p :: p in Put(o, k, v) ==> p == Field(k, v) || p in o
    ensures Field(k, v) in Put(o, k, v)
  {
    if o != [] {
      PutKeys(o[1..], k, v);
    }
  }

  lemma {:induction false} PutSorted(o: Fields, k: Bytes, v: Json)
    requires Sorted(o)
    ensures Sorted(Put(o, k, v))
  {
    if o != [] {
      BeforeTotal(k, o[0].key);
      if k == o[0].key {
      } else if Before(k, o[0].key) {
        forall n | 0 < n < |o| ensures Before(k, o[n].key) {
          BeforeTransitive(k, o[0].key, o[n].key);
        }
      } else {
        var rest := Put(o[1..], k, v);
        PutSorted(o[1..], k, v);
        PutKeys(o[1..], k, v);
        forall n | 0 <= n < |rest| ensures Before(o[0].key, rest[n].key) {
          assert rest[n] in rest;
        }
      }
    }
  }

  lemma {:induction false} PutLookup(o: Fields, k: Bytes, v: Json, k': Bytes)
    requires Sorted(o)
    ensures Lookup(Put(o, k, v), k') == if k' == k then Some(v) else Lookup(o, k')
  {
    if o != [] {
      if k == o[0].key {
        assert Put(o, k, v)[1..] == o[1..];
      } else if Before(k, o[0].key) {
        assert Put(o, k, v)[1..] == o;
      } else {
        assert Put(o, k, v)[1..] == Put(o[1..], k, v);
        PutLookup(o[1..], k, v, k');
      }
    }
  }

  /** Putting a key beyond all others appends it. */
  lemma {:induction false} PutLast(o: Fields, k: Bytes, v: Json)
    requires Sorted(o + [Field(k, v)])
    ensures Put(o, k, v) == o + [Field(k, v)]
  {
    if o != [] {
      assert (o + [Field(k, v)])[0] == o[0] && (o + [Field(k, v)])[|o|] == Field(k, v);
      BeforeTotal(o[0].key, k);
      assert (o + [Field(k, v)])[1..] == o[1..] + [Field(k, v)];
      PutLast(o[1..], k, v);
    }
  }

  // ---------- trees of values ----------

  /** Ints fit in 32 bits and objects are in key order. */
  ghost predicate WellFormed(v: Json) {
    match v
    case Int(i) => IsInt32(i)
    case Arr(items) => forall k :: 0 <= k < |items| ==> WellFormed(items[k])
    case Obj(fields) => Sorted(fields) && forall k :: 0 <= k < |fields| ==> WellFormed(fields[k].value)
    case _ => true
  }
}
