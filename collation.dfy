/** SQLite's default BINARY collation on TEXT. It compares UTF-8 bytes, which
    orders strings the same way as comparing their code points one by one,
    a proper prefix coming first. */
module Collation {

  /** `a` sorts no later than `b`. */
  predicate StrLe(a: string, b: string) {
    if a == [] then true
    else if b == [] then false
    else if a[0] != b[0] then a[0] < b[0]
    else StrLe(a[1..], b[1..])
  }

  lemma {:induction false} StrLeTotal(a: string, b: string)
    ensures StrLe(a, b) || StrLe(b, a)
  {
    if a != [] && b != [] && a[0] == b[0] {
      StrLeTotal(a[1..], b[1..]);
    }
  }

  lemma {:induction false} StrLeAntisymmetric(a: string, b: string)
    requires StrLe(a, b) && StrLe(b, a)
    ensures a == b
  {
    if a != [] && b != [] {
      StrLeAntisymmetric(a[1..], b[1..]);
      assert a == [a[0]] + a[1..] && b == [b[0]] + b[1..];
    }
  }

  lemma {:induction false} StrLeTransitive(a: string, b: string, c: string)
    requires StrLe(a, b) && StrLe(b, c)
    ensures StrLe(a, c)
  {
    if a != [] && b != [] && c != [] && a[0] == b[0] == c[0] {
      StrLeTransitive(a[1..], b[1..], c[1..]);
    }
  }

  /** ORDER BY x, y over two text columns. */
  predicate PairLe(x1: string, y1: string, x2: string, y2: string) {
    if x1 != x2 then StrLe(x1, x2) else StrLe(y1, y2)
  }

  lemma PairLeTotal(x1: string, y1: string, x2: string, y2: string)
    ensures PairLe(x1, y1, x2, y2) || PairLe(x2, y2, x1, y1)
  {
    StrLeTotal(x1, x2);
    StrLeTotal(y1, y2);
  }

  lemma PairLeTransitive(x1: string, y1: string, x2: string, y2: string, x3: string, y3: string)
    requires PairLe(x1, y1, x2, y2) && PairLe(x2, y2, x3, y3)
    ensures PairLe(x1, y1, x3, y3)
  {
    if x1 == x2 == x3 {
      StrLeTransitive(y1, y2, y3);
    } else if x1 == x2 || x2 == x3 {
    } else if x1 == x3 {
      StrLeAntisymmetric(x1, x2);
    } else {
      StrLeTransitive(x1, x2, x3);
    }
  }
}
