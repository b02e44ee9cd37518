/** The item record of the backpack and the three-way comparator that orders
    items by name, by kind or by priority (FreeFire.c, struct Item and
    compararItens). */
module Items {

  /** Capacity of the backpack (MAX_ITENS). */
  const MaxItems: nat := 10

  /** Sizes of the character buffers of an item, terminating NUL included. */
  const NameSize: nat := 50
  const KindSize: nat := 30

  /** The sort criteria (CriterioOrdenacao). The source passes the criterion
      as a plain int, so any other code can reach the comparator. */
  const ByName: int := 1
  const ByKind: int := 2
  const ByPriority: int := 3

  predicate IsCriterion(c: int) {
    ByName <= c <= ByPriority
  }

  /** An item: name, kind (tipo), quantity and priority. */
  datatype Item = Item(name: string, kind: string, quantity: int, priority: int)

  /** What the input routine guarantees of every stored item: a priority in
      1..5 and strings that fit their buffers. The quantity is read unchecked. */
  predicate WellFormed(x: Item) {
    1 <= x.priority <= 5 && |x.name| < NameSize && |x.kind| < KindSize
  }

  /** Lexicographic order on strings as a reference definition: either `a`
      is a proper prefix of `b`, or at the first position where they differ
      the character of `a` is smaller. */
  ghost predicate LexLess(a: string, b: string) {
    (|a| < |b| && a == b[..|a|]) ||
    exists k :: 0 <= k < |a| && k < |b| && a[..k] == b[..k] && a[k] < b[k]
  }

  /** strcmp, reduced to the sign of its result (-1, 0 or 1), which is all
      the source inspects. */
  function StrCmp(a: string, b: string): (r: int)
    ensures -1 <= r <= 1
    ensures r == 0 <==> a == b
  {
    if a == [] then (if b == [] then 0 else -1)
    else if b == [] then 1
    else if a[0] < b[0] then -1
    else if a[0] > b[0] then 1
    else
      assert a == [a[0]] + a[1..] && b == [b[0]] + b[1..];
      StrCmp(a[1..], b[1..])
  }

  /** Swapping the arguments of strcmp flips the sign of its result. */
  lemma {:induction false} StrCmpAntisymmetric(a: string, b: string)
    ensures StrCmp(b, a) == -StrCmp(a, b)
  {
    if a != [] && b != [] && a[0] == b[0] {
      StrCmpAntisymmetric(a[1..], b[1..]);
    }
  }

  /** strcmp's "not greater" is transitive. */
  lemma {:induction false} StrCmpTransitive(a: string, b: string, d: string)
    requires StrCmp(a, b) <= 0 && StrCmp(b, d) <= 0
    ensures StrCmp(a, d) <= 0
  {
    if a != [] && b != [] && d != [] && a[0] == b[0] == d[0] {
      StrCmpTransitive(a[1..], b[1..], d[1..]);
    }
  }

  /** When the first characters differ, they alone decide LexLess. */
  lemma LexLessAtHead(a: string, b: string)
    requires a != [] && b != [] && a[0] != b[0]
    ensures LexLess(a, b) <==> a[0] < b[0]
  {
    if a[0] < b[0] {
      assert a[..0] == b[..0];
    } else {
      if |a| < |b| {
        assert b[..|a|][0] == b[0];
      }
      forall k | 0 < k <= |a| && k <= |b|
        ensures a[..k] != b[..k]
      {
        assert a[..k][0] != b[..k][0];
      }
    }
  }

  /** A shared first character does not affect LexLess (one direction). */
  lemma LexLessFromTail(a: string, b: string)
    requires a != [] && b != [] && a[0] == b[0]
    requires LexLess(a[1..], b[1..])
    ensures LexLess(a, b)
  {
    var a', b' := a[1..], b[1..];
    assert a == [a[0]] + a' && b == [b[0]] + b';
    if |a'| < |b'| && a' == b'[..|a'|] {
      assert a == b[..|a|];
    } else {
      var k :| 0 <= k < |a'| && k < |b'| && a'[..k] == b'[..k] && a'[k] < b'[k];
      assert a[..k + 1] == [a[0]] + a'[..k];
      assert b[..k + 1] == [b[0]] + b'[..k];
      assert a[k + 1] == a'[k] && b[k + 1] == b'[k];
    }
  }

  /** A shared first character does not affect LexLess (other direction). */
  lemma LexLessToTail(a: string, b: string)
    requires a != [] && b != [] && a[0] == b[0]
    requires LexLess(a, b)
    ensures LexLess(a[1..], b[1..])
  {
    var a', b' := a[1..], b[1..];
    if |a| < |b| && a == b[..|a|] {
      assert a' == b'[..|a'|];
    } else {
      var k :| 0 <= k < |a| && k < |b| && a[..k] == b[..k] && a[k] < b[k];
      assert k > 0;
      assert a'[..k - 1] == a[..k][1..] && b'[..k - 1] == b[..k][1..];
      assert a'[k - 1] == a[k] && b'[k - 1] == b[k];
    }
  }

  /** strcmp reports "less" exactly when its first argument is
      lexicographically smaller than the second. */
  lemma {:induction false} StrCmpIsLexicographic(a: string, b: string)
    ensures StrCmp(a, b) < 0 <==> LexLess(a, b)
  {
    if a == [] || b == [] {
    } else if a[0] != b[0] {
      LexLessAtHead(a, b);
    } else {
      StrCmpIsLexicographic(a[1..], b[1..]);
      if LexLess(a[1..], b[1..]) { LexLessFromTail(a, b); }
      if LexLess(a, b) { LexLessToTail(a, b); }
    }
  }

  /** compararItens: negative when `a` goes before `b`, positive when after,
      zero when they tie. Names and kinds compare as strcmp; priorities in
      descending order (b - a); an unknown criterion ties everything. */
  function Compare(a: Item, b: Item, c: int): (r: int)
    ensures c == ByName ==> (r == 0 <==> a.name == b.name)
    ensures c == ByKind ==> (r == 0 <==> a.kind == b.kind)
    ensures c == ByPriority ==> (r > 0 <==> a.priority < b.priority)
    ensures c == ByPriority ==> (r == 0 <==> a.priority == b.priority)
    ensures !IsCriterion(c) ==> r == 0
    ensures WellFormed(a) && WellFormed(b) ==> -4 <= r <= 4
  {
    if c == ByName then StrCmp(a.name, b.name)
    else if c == ByKind then StrCmp(a.kind, b.kind)
    else if c == ByPriority then b.priority - a.priority
    else 0
  }

  /** Under the name and kind criteria the comparator orders those strings
      lexicographically, ascending. */
  lemma CompareIsLexicographic(a: Item, b: Item)
    ensures Compare(a, b, ByName) < 0 <==> LexLess(a.name, b.name)
    ensures Compare(a, b, ByName) > 0 <==> LexLess(b.name, a.name)
    ensures Compare(a, b, ByKind) < 0 <==> LexLess(a.kind, b.kind)
    ensures Compare(a, b, ByKind) > 0 <==> LexLess(b.kind, a.kind)
  {
    StrCmpIsLexicographic(a.name, b.name);
    StrCmpIsLexicographic(b.name, a.name);
    StrCmpAntisymmetric(a.name, b.name);
    StrCmpIsLexicographic(a.kind, b.kind);
    StrCmpIsLexicographic(b.kind, a.kind);
    StrCmpAntisymmetric(a.kind, b.kind);
  }

  /** Swapping the items flips the sign of every comparison. */
  lemma CompareAntisymmetric(a: Item, b: Item, c: int)
    ensures Compare(b, a, c) == -Compare(a, b, c)
  {
    StrCmpAntisymmetric(a.name, b.name);
    StrCmpAntisymmetric(a.kind, b.kind);
  }

  /** "Goes no later than" is transitive under every criterion. */
  lemma CompareTransitive(a: Item, b: Item, d: Item, c: int)
    requires Compare(a, b, c) <= 0 && Compare(b, d, c) <= 0
    ensures Compare(a, d, c) <= 0
  {
    if c == ByName {
      StrCmpTransitive(a.name, b.name, d.name);
    } else if c == ByKind {
      StrCmpTransitive(a.kind, b.kind, d.kind);
    }
  }

  /** Two items that do not tie cannot both tie with a third. */
  lemma CompareTiesOneClass(a: Item, b: Item, x: Item, c: int)
    requires Compare(a, b, c) != 0
    ensures Compare(a, x, c) != 0 || Compare(b, x, c) != 0
  {
  }
}
