/** The destination kinds of the `read<T>` template (src/readpars.hpp:168-233)
    and the policing of a parsed number before it is narrowed to the
    destination: `int` is Signed, `size_t` is Unsigned, `double` is
    Floating, `bool` is Bool. */
module Coercion {

  datatype Kind = Signed | Unsigned | Floating | Bool

  /** `std::is_integral_v<T>`: true of `int`, `size_t` and `bool`. */
  predicate IsIntegral(kind: Kind)
  {
    kind != Floating
  }

  /** `std::is_unsigned_v<T>`: true of `size_t` and `bool`. */
  predicate IsUnsigned(kind: Kind)
  {
    kind == Unsigned || kind == Bool
  }

  /** A value stored in a destination of one of the four kinds. */
  datatype Value = SignedValue(i: int) | UnsignedValue(n: nat) | FloatingValue(r: real) | BoolValue(b: bool)

  function KindOf(v: Value): Kind
  {
    match v
    case SignedValue(_) => Signed
    case UnsignedValue(_) => Unsigned
    case FloatingValue(_) => Floating
    case BoolValue(_) => Bool
  }

  /** The number a stored value stands for; a bool stands for 0 or 1. */
  function AsReal(v: Value): real
  {
    match v
    case SignedValue(i) => i as real
    case UnsignedValue(n) => n as real
    case FloatingValue(r) => r
    case BoolValue(b) => if b then 1.0 else 0.0
  }

  /** The three guards of `read`, in the source's order: an integral kind
      needs a whole number, an unsigned kind a non-negative one, and bool one
      that is at most 1. A bool destination is subject to all three. */
  predicate Accepts(kind: Kind, x: real)
  {
    !(IsIntegral(kind) && x.Floor as real != x)
    && !(IsUnsigned(kind) && x < 0.0)
    && !(kind == Bool && x > 1.0)
  }

  /** What each kind accepts, kind by kind: every number for a double, the
      whole numbers for an int, the non-negative whole numbers for a size_t,
      and exactly 0 and 1 for a bool (so 0.5, -1 and 2 are all refused). */
  lemma AcceptsByKind(x: real)
    ensures Accepts(Floating, x)
    ensures Accepts(Signed, x) <==> x.Floor as real == x
    ensures Accepts(Unsigned, x) <==> x.Floor as real == x && x >= 0.0
    ensures Accepts(Bool, x) <==> x == 0.0 || x == 1.0
  {
    if Accepts(Bool, x) {
      var k := x.Floor;
      assert 0 <= k <= 1;
    }
  }

  /** `static_cast<T>(x)` of an accepted number. */
  function Cast(kind: Kind, x: real): Value
    requires Accepts(kind, x)
  {
    match kind
    case Signed => SignedValue(x.Floor)
    case Unsigned => UnsignedValue(x.Floor)
    case Floating => FloatingValue(x)
    case Bool => BoolValue(x != 0.0)
  }

  /** The guards have run before the cast, so the stored value has the
      destination's kind and stands for exactly the parsed number: a
      negative number never reaches an unsigned destination to wrap around,
      and a bool is stored only from 0 or 1. */
  lemma CastExact(kind: Kind, x: real)
    requires Accepts(kind, x)
    ensures KindOf(Cast(kind, x)) == kind && AsReal(Cast(kind, x)) == x
  {
    AcceptsByKind(x);
  }
}
