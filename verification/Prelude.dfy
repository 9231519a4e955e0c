/** Result types and sequence facts shared by the other modules. */
module Prelude {

  datatype Option<+T> = None | Some(value: T)

  /** A value, or the message of a failure. */
  datatype Result<+T> = Ok(value: T) | Err(message: string)

  /** The concatenation of a list of sequences. */
  function Flatten<T>(parts: seq<seq<T>>): (r: seq<T>)
  {
    if parts == [] then [] else parts[0] + Flatten(parts[1..])
  }

  lemma {:induction false} FlattenAppend<T>(parts: seq<seq<T>>, more: seq<seq<T>>)
    ensures Flatten(parts + more) == Flatten(parts) + Flatten(more)
  {
    if parts == [] {
      assert parts + more == more;
    } else {
      assert (parts + more)[1..] == parts[1..] + more;
      FlattenAppend(parts[1..], more);
    }
  }

  /** Inserting an element anywhere adds it to the multiset. */
  lemma InsertedMultiset<T>(s: seq<T>, p: nat, x: T, prefix: seq<T>)
    requires p <= |s| && multiset(s) == multiset(prefix)
    ensures multiset(s[..p] + [x] + s[p..]) == multiset(prefix + [x])
  {
    assert s == s[..p] + s[p..];
  }

  lemma MulDiff(p: int, x: int, y: int)
    ensures p * (x - y) == p * x - p * y
  {
  }

  lemma MulAtLeast(p: nat, k: nat)
    requires k > 0
    ensures p * k >= p
  {
  }

  lemma DivisionIs(a: nat, p: nat, q: nat, r: nat)
    requires a == p * q + r && r < p
    ensures a / p == q && a % p == r
  {
    var q', r' := a / p, a % p;
    assert a == p * q' + r';
    MulDiff(p, q, q');
    if q > q' {
      MulAtLeast(p, q - q');
    } else if q < q' {
      MulAtLeast(p, q' - q);
      MulDiff(p, q', q);
    }
  }

  /** The same added to both sides of an equation between multisets, on either summand of the left. */
  lemma AddedToBoth<T>(a: multiset<T>, b: multiset<T>, c: multiset<T>, d: multiset<T>, x: multiset<T>)
    requires a + b == c + d
    ensures (a + x) + b == (c + x) + d && a + (b + x) == (c + x) + d
  {
    forall e
      ensures ((a + x) + b)[e] == ((c + x) + d)[e] == (a + (b + x))[e]
    {
      assert (a + b)[e] == (c + d)[e];
    }
  }

  /** A summand replaced. */
  lemma Replaced<T>(all: multiset<T>, r: multiset<T>, t: multiset<T>, x: multiset<T>, f: multiset<T>, c: multiset<T>, d: multiset<T>)
    requires all == r + t + x && t + f == c + d
    ensures all + f == r + c + d + x
  {
    forall e
      ensures (all + f)[e] == (r + c + d + x)[e]
    {
      assert (t + f)[e] == (c + d)[e];
    }
  }
}
