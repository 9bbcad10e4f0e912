/** Python's ordering of `str` values and of pairs of them, as used by
    `list.sort` on `(suffix, prefix)` tuples. */
module Lex {

  /** `a <= b` on Python strings: code point by code point, and a proper
      prefix comes first. */
  predicate StrLe(a: string, b: string) {
    |a| == 0 || (|b| > 0 && (a[0] < b[0] || (a[0] == b[0] && StrLe(a[1..], b[1..]))))
  }

  /** `a < b` on Python strings. */
  predicate StrLt(a: string, b: string) {
    StrLe(a, b) && a != b
  }

  /** `p <= q` on Python 2-tuples: the first components decide unless they
      are equal, then the second ones do. */
  predicate PairLe(p: (string, string), q: (string, string)) {
    StrLt(p.0, q.0) || (p.0 == q.0 && StrLe(p.1, q.1))
  }

  lemma {:induction false} StrLeReflexive(a: string)
    ensures StrLe(a, a)
  {
    if |a| > 0 {
      StrLeReflexive(a[1..]);
    }
  }

  lemma {:induction false} StrLeAntisymmetric(a: string, b: string)
    requires StrLe(a, b) && StrLe(b, a)
    ensures a == b
  {
    if |a| > 0 && |b| > 0 {
      StrLeAntisymmetric(a[1..], b[1..]);
      assert a == [a[0]] + a[1..];
      assert b == [b[0]] + b[1..];
    }
  }

  lemma {:induction false} StrLeTransitive(a: string, b: string, c: string)
    requires StrLe(a, b) && StrLe(b, c)
    ensures StrLe(a, c)
  {
    if |a| > 0 && a[0] == b[0] && b[0] == c[0] {
      StrLeTransitive(a[1..], b[1..], c[1..]);
    }
  }

  lemma {:induction false} StrLeTotal(a: string, b: string)
    ensures StrLe(a, b) || StrLe(b, a)
  {
    if |a| > 0 && |b| > 0 && a[0] == b[0] {
      StrLeTotal(a[1..], b[1..]);
    }
  }

  /** The tuple order is a total order: reflexive, antisymmetric, transitive
      and total. */
  lemma PairLeReflexive(p: (string, string))
    ensures PairLe(p, p)
  {
    StrLeReflexive(p.1);
  }

  lemma PairLeAntisymmetric(p: (string, string), q: (string, string))
    requires PairLe(p, q) && PairLe(q, p)
    ensures p == q
  {
    if p.0 == q.0 {
      StrLeAntisymmetric(p.1, q.1);
    } else {
      StrLeAntisymmetric(p.0, q.0);
    }
  }

  lemma PairLeTransitive(p: (string, string), q: (string, string), r: (string, string))
    requires PairLe(p, q) && PairLe(q, r)
    ensures PairLe(p, r)
  {
    if p.0 == q.0 && q.0 == r.0 {
      StrLeTransitive(p.1, q.1, r.1);
    } else if p.0 != q.0 && q.0 != r.0 {
      StrLeTransitive(p.0, q.0, r.0);
      if p.0 == r.0 {
        StrLeAntisymmetric(p.0, q.0);
      }
    }
  }

  lemma PairLeTotal(p: (string, string), q: (string, string))
    ensures PairLe(p, q) || PairLe(q, p)
  {
    StrLeTotal(p.0, q.0);
    StrLeTotal(p.1, q.1);
  }
}
