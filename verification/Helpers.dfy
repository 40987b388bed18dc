/** Small definitions the other modules share. */
module Helpers {

  datatype Option<+T> = None | Some(value: T)

  function Min(a: int, b: int): (m: int)
    ensures m <= a && m <= b && (m == a || m == b)
  {
    if a <= b then a else b
  }

  ghost predicate Increasing(s: seq<nat>) { forall i, j :: 0 <= i < j < |s| ==> s[i] < s[j] }

  /** White space among ASCII characters, as Python's `str.strip` and `\s` see it. */
  predicate Space(c: char) { 9 <= c as int <= 13 || 28 <= c as int <= 32 }

  /** `separator.join(parts)`. */
  function Join(separator: string, parts: seq<string>): string {
    if parts == [] then ""
    else if |parts| == 1 then parts[0]
    else Join(separator, parts[..|parts| - 1]) + separator + parts[|parts| - 1]
  }

  lemma JoinSnoc(separator: string, parts: seq<string>, last: string)
    ensures Join(separator, parts + [last]) == if parts == [] then last else Join(separator, parts) + separator + last
  {
    assert (parts + [last])[..|parts|] == parts;
  }

  /** The separator stands between neighbours, and nowhere else. */
  lemma {:induction false} JoinConcat(separator: string, a: seq<string>, b: seq<string>)
    requires a != [] && b != []
    ensures Join(separator, a + b) == Join(separator, a) + separator + Join(separator, b)
    ensures |a| == 1 ==> Join(separator, a) == a[0]
  {
    JoinSnoc(separator, [], a[0]);
    assert |a| == 1 ==> a == [] + [a[0]];
    hide Join;
    var n := |b| - 1;
    var front, last := b[..n], b[n];
    assert b == front + [last];
    Regroup(a, front, [last]);
    JoinSnoc(separator, front, last);
    JoinSnoc(separator, a + front, last);
    if n > 0 {
      JoinConcat(separator, a, front);
      Regroup(Join(separator, a) + separator, Join(separator, front), separator);
      Regroup(Join(separator, a) + separator, Join(separator, front) + separator, last);
    } else {
      assert a + front == a;
    }
  }

  lemma Regroup<T>(a: seq<T>, b: seq<T>, c: seq<T>)
    ensures (a + b) + c == a + (b + c)
  {
  }
}
