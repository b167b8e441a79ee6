/**
 * The Python values that reach the parameter helpers, with the two
 * operations the helpers apply to them: truthiness (`if v:`) and
 * equality (`==`, and through it `in` on a list).
 */
module PyValue {

  datatype Value =
    | None
    | Bool(b: bool)
    | Int(i: int)
    | Str(s: string)
    | List(items: seq<Value>)

  /** `bool(v)`: None, False, 0, "" and [] are falsy, everything else truthy. */
  predicate Truthy(v: Value) {
    match v
    case None => false
    case Bool(b) => b
    case Int(i) => i != 0
    case Str(s) => s != ""
    case List(items) => items != []
  }

  /** `bool` is a subclass of `int`: True behaves as 1 and False as 0. */
  function BoolAsInt(b: bool): int {
    if b then 1 else 0
  }

  /** Python `a == b`: numbers compare by value across bool and int, lists element by element. */
  predicate PyEq(a: Value, b: Value)
    decreases a
  {
    match a
    case None => b.None?
    case Bool(x) => (b.Bool? && b.b == x) || (b.Int? && b.i == BoolAsInt(x))
    case Int(x) => (b.Int? && b.i == x) || (b.Bool? && BoolAsInt(b.b) == x)
    case Str(x) => b.Str? && b.s == x
    case List(xs) =>
      b.List? && |xs| == |b.items| && forall k | 0 <= k < |xs| :: PyEq(xs[k], b.items[k])
  }

  lemma {:induction false} PyEqReflexive(a: Value)
    ensures PyEq(a, a)
    decreases a
  {
    if a.List? {
      forall k | 0 <= k < |a.items| ensures PyEq(a.items[k], a.items[k]) {
        PyEqReflexive(a.items[k]);
      }
    }
  }

  /** Python `x in xs` for a list: some element compares equal to `x`. */
  predicate In(x: Value, xs: seq<Value>)
    ensures In(x, xs) <==> exists k :: 0 <= k < |xs| && PyEq(x, xs[k])
  {
    if xs == [] then false
    else if PyEq(x, xs[0]) then true
    else
      assert forall k | 1 <= k < |xs| :: xs[k] == xs[1..][k - 1];
      In(x, xs[1..])
  }
}
