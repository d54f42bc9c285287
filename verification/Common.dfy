/** Definitions shared by every component: bytes, optional values and a few facts about division. */
module Common {

  type Byte = i: int | 0 <= i < 0x100

  datatype Option<+T> = None | Some(value: T)

  lemma MulMono(a: nat, b: nat, c: nat)
    ensures a <= b ==> a * c <= b * c
  {
    if a <= b {
      assert b * c == a * c + (b - a) * c;
    }
  }

  /** A number is written in only one way as a multiple of d and a remainder. */
  lemma DivModUnique(q: nat, r: nat, p: nat, t: nat, d: nat)
    requires r < d && t < d && q * d + r == p * d + t
    ensures q == p && r == t
  {
    assert (q + 1) * d == q * d + d && (p + 1) * d == p * d + d;
    MulMono(q + 1, p, d);
    MulMono(p + 1, q, d);
  }

  /** The quotient and remainder of x = q*d + r, when r is a remainder of d. */
  lemma DivModOf(x: nat, q: nat, d: nat, r: nat)
    requires r < d && x == q * d + r
    ensures x / d == q && x % d == r
  {
    DivModUnique(x / d, x % d, q, r, d);
  }

  lemma {:induction false} LeastExists(keys: set<nat>) returns (least: nat)
    requires keys != {}
    ensures least in keys && forall j :: j in keys ==> least <= j
  {
    least :| least in keys;
    var rest := keys - {least};
    assert keys == rest + {least};
    if rest != {} {
      var r := LeastExists(rest);
      least := if r < least then r else least;
    }
  }

  predicate IsLeast(k: nat, keys: set<nat>) {
    k in keys && forall j :: j in keys ==> k <= j
  }

  /** The least element of a set, where the iteration of an ordered set or map begins. */
  function Least(keys: set<nat>): (k: nat)
    requires keys != {}
    ensures IsLeast(k, keys)
  {
    LeastIsThere(keys);
    var k: nat :| k in keys && IsLeast(k, keys);
    k
  }

  lemma LeastIsThere(keys: set<nat>)
    requires keys != {}
    ensures exists k: nat :: k in keys && IsLeast(k, keys)
  {
    var k := LeastExists(keys);
    assert IsLeast(k, keys);
  }

  /** The elements of an ordered set in the order in which it is iterated. */
  function Ascending(keys: set<nat>): (s: seq<nat>)
    ensures forall k :: k in s <==> k in keys
    ensures forall i, j :: 0 <= i < j < |s| ==> s[i] < s[j]
    decreases |keys|
  {
    if keys == {} then []
    else
      var k := Least(keys);
      [k] + Ascending(keys - {k})
  }
}
