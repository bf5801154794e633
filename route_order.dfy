/**
 * The ordering `sorted(..., key=lambda x: (x['ServiceNo'], x['Direction'],
 * x['StopSequence']))` relies on: Python's comparison of `str` values
 * (lexicographic by code point, a proper prefix first) and the
 * lexicographic comparison of the key tuple.
 */
module RouteOrder {

  /** Python's `a <= b` on `str`. */
  predicate StrLe(a: string, b: string)
    decreases |a|
  {
    if a == [] then true
    else if b == [] then false
    else if a[0] != b[0] then a[0] < b[0]
    else StrLe(a[1..], b[1..])
  }

  lemma {:induction false} StrLeReflexive(a: string)
    ensures StrLe(a, a)
    decreases |a|
  {
    if a != [] {
      StrLeReflexive(a[1..]);
    }
  }

  lemma {:induction false} StrLeTotal(a: string, b: string)
    ensures StrLe(a, b) || StrLe(b, a)
    decreases |a|
  {
    if a != [] && b != [] && a[0] == b[0] {
      StrLeTotal(a[1..], b[1..]);
    }
  }

  lemma {:induction false} StrLeAntisymmetric(a: string, b: string)
    requires StrLe(a, b) && StrLe(b, a)
    ensures a == b
    decreases |a|
  {
    if a != [] && b != [] {
      StrLeAntisymmetric(a[1..], b[1..]);
      assert a == [a[0]] + a[1..];
      assert b == [b[0]] + b[1..];
    }
  }

  lemma {:induction false} StrLeTransitive(a: string, b: string, c: string)
    requires StrLe(a, b) && StrLe(b, c)
    ensures StrLe(a, c)
    decreases |a|
  {
    if a != [] && b != [] && c != [] && a[0] == b[0] && b[0] == c[0] {
      StrLeTransitive(a[1..], b[1..], c[1..]);
    }
  }

  /** The sort key `(ServiceNo, Direction, StopSequence)` of one route record. */
  datatype RouteKey = RouteKey(serviceNo: string, direction: int, stopSequence: int)

  /** Python's `<=` on the key tuple: compare the first differing component. */
  predicate KeyLe(a: RouteKey, b: RouteKey)
  {
    if a.serviceNo != b.serviceNo then StrLe(a.serviceNo, b.serviceNo)
    else if a.direction != b.direction then a.direction < b.direction
    else a.stopSequence <= b.stopSequence
  }

  lemma KeyLeReflexive(a: RouteKey)
    ensures KeyLe(a, a)
  {
  }

  lemma KeyLeTotal(a: RouteKey, b: RouteKey)
    ensures KeyLe(a, b) || KeyLe(b, a)
  {
    StrLeTotal(a.serviceNo, b.serviceNo);
  }

  lemma KeyLeAntisymmetric(a: RouteKey, b: RouteKey)
    requires KeyLe(a, b) && KeyLe(b, a)
    ensures a == b
  {
    if a.serviceNo != b.serviceNo {
      StrLeAntisymmetric(a.serviceNo, b.serviceNo);
    }
  }

  lemma KeyLeTransitive(a: RouteKey, b: RouteKey, c: RouteKey)
    requires KeyLe(a, b) && KeyLe(b, c)
    ensures KeyLe(a, c)
  {
    if a.serviceNo != b.serviceNo && b.serviceNo != c.serviceNo {
      StrLeTransitive(a.serviceNo, b.serviceNo, c.serviceNo);
      if a.serviceNo == c.serviceNo {
        StrLeAntisymmetric(a.serviceNo, b.serviceNo);
      }
    }
  }
}
