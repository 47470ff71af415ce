/** Sort keys as SQLite compares them. A key is a list of terms, each a column
    value with a direction; keys are compared term by term (ORDER BY a, b, c).
    Values follow SQLite's cross-type rule: NULL sorts before every number and
    every number before every text; texts compare by code point, which is the
    byte order of their UTF-8 form (the BINARY collation). */
module Ordering {

  datatype Value = Null | Num(n: int) | Text(s: string)

  /** One ORDER BY term: a value and whether its column is sorted DESC. */
  datatype Term = Term(v: Value, desc: bool)

  type Key = seq<Term>

  /** Three-way comparison results. */
  predicate IsSign(c: int) { c == -1 || c == 0 || c == 1 }

  /** Lexicographic comparison of strings by code point. */
  function TextCmp(a: string, b: string): (c: int)
    ensures IsSign(c)
  {
    if |a| == 0 && |b| == 0 then 0
    else if |a| == 0 then -1
    else if |b| == 0 then 1
    else if a[0] < b[0] then -1
    else if a[0] > b[0] then 1
    else TextCmp(a[1..], b[1..])
  }

  lemma {:induction false} TextCmpAntisym(a: string, b: string)
    ensures TextCmp(a, b) == -TextCmp(b, a)
    ensures TextCmp(a, b) == 0 <==> a == b
  {
    if |a| > 0 && |b| > 0 && a[0] == b[0] {
      TextCmpAntisym(a[1..], b[1..]);
      if a[1..] == b[1..] {
        assert a == [a[0]] + a[1..] && b == [b[0]] + b[1..];
      }
    }
  }

  lemma {:induction false} TextCmpTrans(a: string, b: string, c: string)
    requires TextCmp(a, b) <= 0 && TextCmp(b, c) <= 0
    ensures TextCmp(a, c) <= 0
  {
    if |a| > 0 && |b| > 0 && |c| > 0 && a[0] == b[0] && b[0] == c[0] {
      TextCmpTrans(a[1..], b[1..], c[1..]);
    }
  }

  function Rank(v: Value): int {
    match v
    case Null => 0
    case Num(_) => 1
    case Text(_) => 2
  }

  function IntCmp(a: int, b: int): (c: int)
    ensures IsSign(c)
    ensures c < 0 <==> a < b
    ensures c == 0 <==> a == b
  {
    if a < b then -1 else if a > b then 1 else 0
  }

  function ValueCmp(a: Value, b: Value): (c: int)
    ensures IsSign(c)
  {
    if Rank(a) != Rank(b) then IntCmp(Rank(a), Rank(b))
    else match (a, b)
      case (Num(x), Num(y)) => IntCmp(x, y)
      case (Text(x), Text(y)) => TextCmp(x, y)
      case _ => 0
  }

  /** A DESC term reverses the comparison of its values. */
  function TermCmp(a: Term, b: Term): (c: int)
    ensures IsSign(c)
  {
    if a.desc != b.desc then (if a.desc then 1 else -1)
    else if a.desc then -ValueCmp(a.v, b.v)
    else ValueCmp(a.v, b.v)
  }

  /** ORDER BY over several terms: the first term that differs decides. */
  function KeyCmp(a: Key, b: Key): (c: int)
    ensures IsSign(c)
  {
    if |a| == 0 && |b| == 0 then 0
    else if |a| == 0 then -1
    else if |b| == 0 then 1
    else if TermCmp(a[0], b[0]) != 0 then TermCmp(a[0], b[0])
    else KeyCmp(a[1..], b[1..])
  }

  /** `a` may be listed before `b`. */
  predicate Le(a: Key, b: Key) {
    KeyCmp(a, b) <= 0
  }

  lemma ValueCmpAntisym(a: Value, b: Value)
    ensures ValueCmp(a, b) == -ValueCmp(b, a)
    ensures ValueCmp(a, b) == 0 <==> a == b
  {
    if a.Text? && b.Text? {
      TextCmpAntisym(a.s, b.s);
    }
  }

  lemma ValueCmpTrans(a: Value, b: Value, c: Value)
    requires ValueCmp(a, b) <= 0 && ValueCmp(b, c) <= 0
    ensures ValueCmp(a, c) <= 0
  {
    if a.Text? && b.Text? && c.Text? {
      TextCmpTrans(a.s, b.s, c.s);
    }
  }

  lemma TermCmpAntisym(a: Term, b: Term)
    ensures TermCmp(a, b) == -TermCmp(b, a)
    ensures TermCmp(a, b) == 0 <==> a == b
  {
    ValueCmpAntisym(a.v, b.v);
  }

  lemma TermCmpTrans(a: Term, b: Term, c: Term)
    requires TermCmp(a, b) <= 0 && TermCmp(b, c) <= 0
    ensures TermCmp(a, c) <= 0
  {
    if a.desc == b.desc == c.desc {
      if a.desc {
        ValueCmpAntisym(a.v, c.v);
        ValueCmpAntisym(a.v, b.v);
        ValueCmpAntisym(b.v, c.v);
        ValueCmpTrans(c.v, b.v, a.v);
      } else {
        ValueCmpTrans(a.v, b.v, c.v);
      }
    }
  }

  /** Key comparison is antisymmetric, and two keys tie exactly when equal. */
  lemma {:induction false} KeyCmpAntisym(a: Key, b: Key)
    ensures KeyCmp(a, b) == -KeyCmp(b, a)
    ensures KeyCmp(a, b) == 0 <==> a == b
  {
    if |a| > 0 && |b| > 0 {
      TermCmpAntisym(a[0], b[0]);
      if TermCmp(a[0], b[0]) == 0 {
        KeyCmpAntisym(a[1..], b[1..]);
        if a[1..] == b[1..] {
          assert a == [a[0]] + a[1..] && b == [b[0]] + b[1..];
        }
      }
    }
  }

  /** `Le` is transitive. */
  lemma {:induction false} KeyCmpTrans(a: Key, b: Key, c: Key)
    requires Le(a, b) && Le(b, c)
    ensures Le(a, c)
  {
    if |a| > 0 && |b| > 0 && |c| > 0 {
      TermCmpAntisym(a[0], b[0]);
      TermCmpAntisym(b[0], c[0]);
      TermCmpAntisym(a[0], c[0]);
      TermCmpTrans(a[0], b[0], c[0]);
      if TermCmp(a[0], b[0]) == 0 && TermCmp(b[0], c[0]) == 0 {
        KeyCmpTrans(a[1..], b[1..], c[1..]);
      }
    }
  }

  /** `Le` is total: of two keys, one may always come first. */
  lemma KeyLeTotal(a: Key, b: Key)
    ensures Le(a, b) || Le(b, a)
  {
    KeyCmpAntisym(a, b);
  }

  /** Comparing keys looks at the first terms, and at the rest only on a tie. */
  lemma KeyCmpCons(h1: Term, t1: Key, h2: Term, t2: Key)
    ensures KeyCmp([h1] + t1, [h2] + t2)
            == if TermCmp(h1, h2) != 0 then TermCmp(h1, h2) else KeyCmp(t1, t2)
  {
    assert ([h1] + t1)[0] == h1 && ([h1] + t1)[1..] == t1;
    assert ([h2] + t2)[0] == h2 && ([h2] + t2)[1..] == t2;
  }

  /** Keys of one term compare as their terms do. */
  lemma KeyCmpSingle(a: Term, b: Term)
    ensures KeyCmp([a], [b]) == TermCmp(a, b)
  {
    KeyCmpCons(a, [], b, []);
    assert [a] + [] == [a] && [b] + [] == [b];
  }

  /** A single DESC number term lists larger numbers first. */
  lemma DescNumber(x: int, y: int)
    ensures Le([Term(Num(x), true)], [Term(Num(y), true)]) <==> x >= y
  {
    var a, b := [Term(Num(x), true)], [Term(Num(y), true)];
    assert a[1..] == [] && b[1..] == [];
    assert ValueCmp(Num(x), Num(y)) == IntCmp(x, y);
    assert TermCmp(a[0], b[0]) == -IntCmp(x, y);
    assert KeyCmp(a[1..], b[1..]) == 0;
    assert KeyCmp(a, b) == (if x == y then 0 else -IntCmp(x, y));
  }
}
