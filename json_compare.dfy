/**
 * The structural comparator (JSONCompare): a visitor that holds the left
 * value and is visited with the right one.
 *
 * The overload is chosen by the right operand's alternative; when the left
 * value holds a different alternative the comparison is false (there is no
 * int/double coercion). Doubles are equal when their magnitudes differ by at
 * most EPSILON; objects and arrays of the same size are compared position by
 * position (object keys are never looked at); null equals null; ints,
 * strings and bools must be identical.
 */
module JsonCompare {
  import opened Jsonable

  /** JSONCompare::EPSILON. */
  const Epsilon: real := 0.000001

  function Abs(x: real): (r: real)
    ensures r >= 0.0 && (r == x || r == -x)
  {
    if x < 0.0 then -x else x
  }

  /** Both values hold the same alternative of the variant. */
  predicate SameAlternative(a: Value, b: Value) {
    (a.Int? && b.Int?) || (a.Dbl? && b.Dbl?) || (a.Str? && b.Str?) || (a.Bool? && b.Bool?)
    || (a.Null? && b.Null?) || (a.Obj? && b.Obj?) || (a.Arr? && b.Arr?)
  }

  /** The double overload's rule: the magnitudes differ by at most EPSILON. */
  predicate CloseMagnitudes(l: real, r: real) {
    Abs(Abs(l) - Abs(r)) <= Epsilon
  }

  /** std::visit(JSONCompare{left}, right). */
  function Equals(left: Value, right: Value): (r: bool)
    ensures r ==> SameAlternative(left, right)
    ensures right.Dbl? ==> (r <==> left.Dbl? && CloseMagnitudes(left.d, right.d))
    ensures right.Obj? ==> (r <==> left.Obj? && |left.members| == |right.members|
                                   && MembersEqual(left.members, right.members, 0))
    ensures right.Arr? ==> (r <==> left.Arr? && |left.items| == |right.items|
                                   && ItemsEqual(left.items, right.items, 0))
    ensures right.Null? || right.Int? || right.Str? || right.Bool? ==> (r <==> left == right)
    decreases right, 1
  {
    match right
    case Dbl(d) => left.Dbl? && CloseMagnitudes(left.d, d)
    case Obj(ms) => left.Obj? && |left.members| == |ms| && MembersEqual(left.members, ms, 0)
    case Arr(items) => left.Arr? && |left.items| == |items| && ItemsEqual(left.items, items, 0)
    case Null => left.Null?
    case Int(i) => left.Int? && left.i == i
    case Str(s) => left.Str? && left.s == s
    case Bool(b) => left.Bool? && left.b == b
  }

  /**
   * The object overload's loop from position i: the values match pair by
   * pair in iteration order, whatever the keys.
   */
  function MembersEqual(lms: seq<Member>, rms: seq<Member>, i: nat): (r: bool)
    requires |lms| == |rms| && i <= |rms|
    ensures r <==> forall k :: i <= k < |rms| ==> Equals(lms[k].value, rms[k].value)
    decreases Obj(rms), 0, |rms| - i
  {
    if i == |rms| then true
    else Equals(lms[i].value, rms[i].value) && MembersEqual(lms, rms, i + 1)
  }

  /** The array overload's loop from position i: the elements match pair by pair in index order. */
  function ItemsEqual(litems: seq<Value>, ritems: seq<Value>, i: nat): (r: bool)
    requires |litems| == |ritems| && i <= |ritems|
    ensures r <==> forall k :: i <= k < |ritems| ==> Equals(litems[k], ritems[k])
    decreases Arr(ritems), 0, |ritems| - i
  {
    if i == |ritems| then true
    else Equals(litems[i], ritems[i]) && ItemsEqual(litems, ritems, i + 1)
  }

  // ----- Properties -----

  /** Every value tree equals itself. */
  lemma {:induction false} EqualsReflexive(v: Value)
    ensures Equals(v, v)
    decreases v
  {
    match v
    case Obj(ms) =>
      forall k | 0 <= k < |ms| ensures Equals(ms[k].value, ms[k].value) {
        assert ms[k] in ms;
        EqualsReflexive(ms[k].value);
      }
    case Arr(items) =>
      forall k | 0 <= k < |items| ensures Equals(items[k], items[k]) {
        assert items[k] in items;
        EqualsReflexive(items[k]);
      }
    case _ =>
  }

  /** The comparison does not depend on which operand is on the left. */
  lemma {:induction false} EqualsSymmetric(a: Value, b: Value)
    ensures Equals(a, b) == Equals(b, a)
    decreases b
  {
    match b
    case Obj(rms) =>
      if a.Obj? && |a.members| == |rms| {
        forall k | 0 <= k < |rms| ensures Equals(a.members[k].value, rms[k].value) == Equals(rms[k].value, a.members[k].value) {
          assert rms[k] in rms;
          EqualsSymmetric(a.members[k].value, rms[k].value);
        }
      }
    case Arr(ritems) =>
      if a.Arr? && |a.items| == |ritems| {
        forall k | 0 <= k < |ritems| ensures Equals(a.items[k], ritems[k]) == Equals(ritems[k], a.items[k]) {
          assert ritems[k] in ritems;
          EqualsSymmetric(a.items[k], ritems[k]);
        }
      }
    case Dbl(d) =>
      if a.Dbl? {
        assert Abs(Abs(a.d) - Abs(d)) == Abs(Abs(d) - Abs(a.d));
      }
    case _ =>
  }

  /** No coercion between the numeric alternatives: an int never equals a double. */
  lemma IntNeverEqualsDouble(i: int, d: real)
    ensures !Equals(Int(i), Dbl(d)) && !Equals(Dbl(d), Int(i))
  {
  }

  /** Only magnitudes are compared, so a double equals its negation. */
  lemma DoubleEqualsItsNegation(x: real)
    ensures Equals(Dbl(x), Dbl(-x))
  {
  }

  /** Keys are never compared: {"a":1} equals {"b":1}. */
  lemma KeysIgnored()
    ensures Equals(Obj([Member("a", Int(1))]), Obj([Member("b", Int(1))]))
  {
    assert MembersEqual([Member("a", Int(1))], [Member("b", Int(1))], 1);
  }

  /** Null equals null and nothing else, on either side. */
  lemma NullEqualsOnlyNull(v: Value)
    ensures Equals(v, Null) <==> v.Null?
    ensures Equals(Null, v) <==> v.Null?
  {
  }

  /**
   * The epsilon rule is not transitive: 0 is equal to 0.0000006, which is
   * equal to 0.0000012, which is not equal to 0.
   */
  lemma NotTransitive()
    ensures Equals(Dbl(0.0), Dbl(0.0000006)) && Equals(Dbl(0.0000006), Dbl(0.0000012))
    ensures !Equals(Dbl(0.0), Dbl(0.0000012))
  {
  }

  // ----- A reference definition: equality up to keys -----

  /** The value with every object key blanked out. */
  function Shape(v: Value): Value
    decreases v
  {
    match v
    case Obj(ms) => Obj(ShapeMembers(ms))
    case Arr(items) => Arr(ShapeItems(items))
    case _ => v
  }

  function ShapeMembers(ms: seq<Member>): (r: seq<Member>)
    ensures |r| == |ms|
    ensures forall k :: 0 <= k < |ms| ==> r[k] == Member("", Shape(ms[k].value))
    decreases ms
  {
    if |ms| == 0 then [] else [Member("", Shape(ms[0].value))] + ShapeMembers(ms[1..])
  }

  function ShapeItems(items: seq<Value>): (r: seq<Value>)
    ensures |r| == |items|
    ensures forall k :: 0 <= k < |items| ==> r[k] == Shape(items[k])
    decreases items
  {
    if |items| == 0 then [] else [Shape(items[0])] + ShapeItems(items[1..])
  }

  /** No double anywhere in the tree. */
  predicate NoDoubles(v: Value)
    decreases v
  {
    match v
    case Dbl(_) => false
    case Obj(ms) => forall k :: 0 <= k < |ms| ==> NoDoubles(ms[k].value)
    case Arr(items) => forall k :: 0 <= k < |items| ==> NoDoubles(items[k])
    case _ => true
  }

  /**
   * Away from doubles, the comparator is exactly equality of the trees with
   * their keys blanked out: same alternatives, same sizes, same scalars in
   * the same positions.
   */
  lemma {:induction false} EqualsIsEqualityUpToKeys(a: Value, b: Value)
    requires NoDoubles(a) && NoDoubles(b)
    ensures Equals(a, b) <==> Shape(a) == Shape(b)
    decreases b
  {
    match b
    case Obj(rms) =>
      if a.Obj? && |a.members| == |rms| {
        var lms := a.members;
        forall k | 0 <= k < |rms| ensures Equals(lms[k].value, rms[k].value) <==> Shape(lms[k].value) == Shape(rms[k].value) {
          assert rms[k] in rms;
          EqualsIsEqualityUpToKeys(lms[k].value, rms[k].value);
        }
        if Shape(a) == Shape(b) {
          forall k | 0 <= k < |rms| ensures Shape(lms[k].value) == Shape(rms[k].value) {
            assert ShapeMembers(lms)[k] == ShapeMembers(rms)[k];
          }
        }
        if Equals(a, b) {
          assert ShapeMembers(lms) == ShapeMembers(rms);
        }
      } else if a.Obj? {
        assert |Shape(a).members| != |Shape(b).members|;
      }
    case Arr(ritems) =>
      if a.Arr? && |a.items| == |ritems| {
        var litems := a.items;
        forall k | 0 <= k < |ritems| ensures Equals(litems[k], ritems[k]) <==> Shape(litems[k]) == Shape(ritems[k]) {
          assert ritems[k] in ritems;
          EqualsIsEqualityUpToKeys(litems[k], ritems[k]);
        }
        if Shape(a) == Shape(b) {
          forall k | 0 <= k < |ritems| ensures Shape(litems[k]) == Shape(ritems[k]) {
            assert ShapeItems(litems)[k] == ShapeItems(ritems)[k];
          }
        }
        if Equals(a, b) {
          assert ShapeItems(litems) == ShapeItems(ritems);
        }
      } else if a.Arr? {
        assert |Shape(a).items| != |Shape(b).items|;
      }
    case _ =>
  }
}
