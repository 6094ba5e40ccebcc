/** The order Python 2 uses when `sorted` compares raw JSON values:
    `None` first, then numbers (a bool counts as 0 or 1), then strings,
    which compare lexicographically by code point. */
module Order {
  import opened Values

  /** Lexicographic order on strings; a proper prefix comes first. */
  predicate LexLe(a: string, b: string)
    ensures a <= b ==> LexLe(a, b)
    ensures |a| > 0 && |b| > 0 && a[0] < b[0] ==> LexLe(a, b)
    ensures |a| > 0 && |b| > 0 && a[0] > b[0] ==> !LexLe(a, b)
    ensures LexLe(a, b) && |b| == 0 ==> |a| == 0
    decreases |a|
  {
    |a| == 0 || (|b| > 0 && (a[0] < b[0] || (a[0] == b[0] && LexLe(a[1..], b[1..]))))
  }

  /** Which group of Python 2's mixed-type order a value falls in. */
  function Rank(v: Value): nat
  {
    match v
    case Null => 0
    case Bool(_) => 1
    case Int(_) => 1
    case Text(_) => 2
  }

  /** The numeric value of a bool or int. */
  function Number(v: Value): int
    requires Rank(v) == 1
  {
    match v
    case Bool(b) => if b then 1 else 0
    case Int(i) => i
  }

  /** `a <= b` as Python 2 compares the two values. */
  predicate Le(a: Value, b: Value)
    ensures a.Null? ==> Le(a, b)
    ensures b.Null? && Le(a, b) ==> a.Null?
    ensures a.Text? && !b.Text? ==> !Le(a, b)
  {
    if Rank(a) != Rank(b) then Rank(a) < Rank(b)
    else if Rank(a) == 0 then true
    else if Rank(a) == 1 then Number(a) <= Number(b)
    else LexLe(a.s, b.s)
  }

  lemma {:induction false} LexLeTotal(a: string, b: string)
    ensures LexLe(a, b) || LexLe(b, a)
    decreases |a|
  {
    if |a| > 0 && |b| > 0 && a[0] == b[0] {
      LexLeTotal(a[1..], b[1..]);
    }
  }

  lemma {:induction false} LexLeTransitive(a: string, b: string, c: string)
    requires LexLe(a, b) && LexLe(b, c)
    ensures LexLe(a, c)
    decreases |a|
  {
    if |a| > 0 && a[0] == b[0] && b[0] == c[0] {
      LexLeTransitive(a[1..], b[1..], c[1..]);
    }
  }

  lemma {:induction false} LexLeAntisymmetric(a: string, b: string)
    requires LexLe(a, b) && LexLe(b, a)
    ensures a == b
    decreases |a|
  {
    if |a| > 0 {
      LexLeAntisymmetric(a[1..], b[1..]);
      assert a == [a[0]] + a[1..] && b == [b[0]] + b[1..];
    }
  }

  /** Two strings that agree up to index `k` and differ there compare as
      their characters at `k` do. */
  lemma {:induction false} LexLeFirstDifference(a: string, b: string, k: nat)
    requires k < |a| && k < |b| && a[..k] == b[..k] && a[k] != b[k]
    ensures LexLe(a, b) <==> a[k] < b[k]
    decreases k
  {
    if k > 0 {
      assert a[0] == a[..k][0] && b[0] == b[..k][0];
      assert a[1..][..k - 1] == a[..k][1..] && b[1..][..k - 1] == b[..k][1..];
      LexLeFirstDifference(a[1..], b[1..], k - 1);
    }
  }

  /** Any two raw values are comparable, so `sorted` never needs more. */
  lemma LeTotal(a: Value, b: Value)
    ensures Le(a, b) || Le(b, a)
  {
    if a.Text? && b.Text? {
      LexLeTotal(a.s, b.s);
    }
  }

  lemma LeTransitive(a: Value, b: Value, c: Value)
    requires Le(a, b) && Le(b, c)
    ensures Le(a, c)
  {
    if a.Text? && b.Text? && c.Text? {
      LexLeTransitive(a.s, b.s, c.s);
    }
  }

  /** Two values tie only when they are equal, or are a bool and an int
      with the same numeric value. */
  lemma LeTies(a: Value, b: Value)
    requires Le(a, b) && Le(b, a)
    ensures a == b || (Rank(a) == 1 && Rank(b) == 1 && Number(a) == Number(b))
  {
    if a.Text? && b.Text? {
      LexLeAntisymmetric(a.s, b.s);
    }
  }
}
