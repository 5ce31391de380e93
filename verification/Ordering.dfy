/**
 The ORDER BY comparator of execute_select in src/query_executor_engine.cpp, and when it is
 the strict weak order that std::sort asks for.  Doubles are real numbers; strings compare by
 character code.
 */
module Ordering {
  import opened Options

  datatype Value = Null | Int(i: int) | Double(d: real) | Str(s: string) | Bool(b: bool)

  /** A row, from column names to values. */
  type Row = map<string, Value>

  /** One ORDER BY item. */
  datatype OrderKey = OrderKey(column: string, desc: bool)

  // ----- The comparator -----

  /** std::string::compare, as a sign. */
  function CompareStrings(a: string, b: string): int
    decreases |a|
  {
    if a == "" then (if b == "" then 0 else -1)
    else if b == "" then 1
    else if a[0] < b[0] then -1
    else if a[0] > b[0] then 1
    else CompareStrings(a[1..], b[1..])
  }

  /** Two non-null values: only integers, doubles and strings compare, each among themselves. */
  function CompareValues(a: Value, b: Value): int {
    match (a, b)
    case (Int(x), Int(y)) => if x < y then -1 else if x > y then 1 else 0
    case (Double(x), Double(y)) => if x < y then -1 else if x > y then 1 else 0
    case (Str(x), Str(y)) => CompareStrings(x, y)
    case _ => 0
  }

  /** One key: nulls first when ascending, last when descending.  Negative when a comes before b. */
  function CompareKey(desc: bool, a: Value, b: Value): int {
    if a.Null? && b.Null? then 0
    else if a.Null? then (if desc then 1 else -1)
    else if b.Null? then (if desc then -1 else 1)
    else if desc then -CompareValues(a, b) else CompareValues(a, b)
  }

  /** The value in a column; the rows of a table hold every column of it. */
  function Field(row: Row, column: string): Value {
    if column in row then row[column] else Null
  }

  /** The sign that one ORDER BY item gives two rows. */
  function Sign(k: OrderKey, a: Row, b: Row): int {
    CompareKey(k.desc, Field(a, k.column), Field(b, k.column))
  }

  /** The keys in turn, until one decides. */
  function CompareRows(keys: seq<OrderKey>, a: Row, b: Row): int
    decreases |keys|
  {
    if keys == [] then 0
    else
      var c := Sign(keys[0], a, b);
      if c != 0 then c else CompareRows(keys[1..], a, b)
  }

  /** The lambda handed to std::sort. */
  predicate RowLess(keys: seq<OrderKey>, a: Row, b: Row) {
    CompareRows(keys, a, b) < 0
  }

  // ----- Strict weak orders -----

  ghost predicate StrictWeakOrder<T>(less: (T, T) -> bool, s: set<T>) {
    && (forall a :: a in s ==> !less(a, a))
    && (forall a, b, c :: a in s && b in s && c in s && less(a, b) && less(b, c) ==> less(a, c))
    && (forall a, b, c :: a in s && b in s && c in s && !less(a, b) && !less(b, a) && !less(b, c) && !less(c, b)
          ==> !less(a, c) && !less(c, a))
  }

  /** A comparison that behaves like the sign of a difference. */
  ghost predicate Consistent<T>(cmp: (T, T) -> int, s: set<T>) {
    && (forall a, b :: a in s && b in s ==> cmp(b, a) == -cmp(a, b))
    && (forall a, b, c :: a in s && b in s && c in s && cmp(a, b) <= 0 && cmp(b, c) <= 0 ==> cmp(a, c) <= 0)
  }

  lemma ConsistentStep<T>(cmp: (T, T) -> int, s: set<T>, a: T, b: T, c: T)
    requires Consistent(cmp, s) && a in s && b in s && c in s
    ensures cmp(a, b) <= 0 && cmp(b, c) < 0 ==> cmp(a, c) < 0
    ensures cmp(a, b) < 0 && cmp(b, c) <= 0 ==> cmp(a, c) < 0
    ensures cmp(a, b) == 0 && cmp(b, c) == 0 ==> cmp(a, c) == 0
  {
    assert cmp(b, a) == -cmp(a, b) && cmp(c, b) == -cmp(b, c) && cmp(c, a) == -cmp(a, c);
    if cmp(c, a) <= 0 && cmp(a, b) <= 0 { assert cmp(c, b) <= 0; }
    if cmp(b, c) <= 0 && cmp(c, a) <= 0 { assert cmp(b, a) <= 0; }
  }

  lemma ConsistentIsWeakOrder<T>(cmp: (T, T) -> int, less: (T, T) -> bool, s: set<T>)
    requires Consistent(cmp, s) && forall a, b :: a in s && b in s ==> (less(a, b) <==> cmp(a, b) < 0)
    ensures StrictWeakOrder(less, s)
  {
    forall a | a in s ensures !less(a, a) { assert cmp(a, a) == -cmp(a, a); }
    forall a, b, c | a in s && b in s && c in s
      ensures less(a, b) && less(b, c) ==> less(a, c)
      ensures !less(a, b) && !less(b, a) && !less(b, c) && !less(c, b) ==> !less(a, c) && !less(c, a)
    {
      ConsistentStep(cmp, s, a, b, c);
      assert cmp(b, a) == -cmp(a, b) && cmp(c, b) == -cmp(b, c) && cmp(c, a) == -cmp(a, c);
    }
  }

  // ----- Values -----

  lemma {:induction false} StringsAntisymmetric(a: string, b: string)
    ensures CompareStrings(b, a) == -CompareStrings(a, b)
    decreases |a|
  {
    if a != "" && b != "" && a[0] == b[0] { StringsAntisymmetric(a[1..], b[1..]); }
  }

  lemma {:induction false} StringsTransitive(a: string, b: string, c: string)
    requires CompareStrings(a, b) <= 0 && CompareStrings(b, c) <= 0
    ensures CompareStrings(a, c) <= 0
    decreases |a|
  {
    if a != "" && b != "" && c != "" && a[0] == b[0] == c[0] { StringsTransitive(a[1..], b[1..], c[1..]); }
  }

  /** Neither is null, and both are of one type. */
  predicate SameType(a: Value, b: Value) {
    (a.Int? && b.Int?) || (a.Double? && b.Double?) || (a.Str? && b.Str?) || (a.Bool? && b.Bool?)
  }

  /** All non-null values are of one type. */
  ghost predicate OneType(values: set<Value>) {
    forall a, b :: a in values && b in values && !a.Null? && !b.Null? ==> SameType(a, b)
  }

  /** No two non-null values compare as different. */
  ghost predicate NoneDiffer(values: set<Value>) {
    forall a, b :: a in values && b in values && !a.Null? && !b.Null? ==> CompareValues(a, b) == 0
  }

  lemma ValuesAntisymmetric(a: Value, b: Value)
    ensures CompareValues(b, a) == -CompareValues(a, b)
  {
    if a.Str? && b.Str? { StringsAntisymmetric(a.s, b.s); }
  }

  lemma KeyAntisymmetric(desc: bool, a: Value, b: Value)
    ensures CompareKey(desc, b, a) == -CompareKey(desc, a, b)
  {
    ValuesAntisymmetric(a, b);
  }

  lemma ValuesTransitive(a: Value, b: Value, c: Value)
    requires SameType(a, b) && SameType(b, c) && CompareValues(a, b) <= 0 && CompareValues(b, c) <= 0
    ensures CompareValues(a, c) <= 0
  {
    if a.Str? { StringsTransitive(a.s, b.s, c.s); }
  }

  predicate KeyLess(desc: bool, a: Value, b: Value) {
    CompareKey(desc, a, b) < 0
  }

  /** x is put before y, but z, of another type than both, is tied with both. */
  predicate Straddles(desc: bool, x: Value, y: Value, z: Value) {
    !x.Null? && !y.Null? && !z.Null? && !SameType(x, z) && KeyLess(desc, x, y)
  }

  /** Such a z is the only way in which one key can fail to be transitive. */
  lemma KeyTransitive(desc: bool, a: Value, b: Value, c: Value)
    requires CompareKey(desc, a, b) <= 0 && CompareKey(desc, b, c) <= 0 && !Straddles(desc, c, a, b)
    ensures CompareKey(desc, a, c) <= 0
  {
    KeyAntisymmetric(desc, a, c);
    if !a.Null? && !b.Null? && !c.Null? && SameType(a, c) && SameType(b, c) {
      ValuesAntisymmetric(a, b);
      ValuesAntisymmetric(b, c);
      ValuesAntisymmetric(a, c);
      if desc { ValuesTransitive(c, b, a); } else { ValuesTransitive(a, b, c); }
    }
  }

  // ----- What the comparator means -----

  /** a comes before b in the dictionary: they agree up to a place where a ends or has the
      smaller character. */
  ghost predicate DictionaryLess(a: string, b: string) {
    exists k :: SplitsAt(a, b, k)
  }

  predicate SplitsAt(a: string, b: string, k: int) {
    0 <= k <= |a| && k < |b| && a[..k] == b[..k] && (k == |a| || a[k] < b[k])
  }

  lemma SplitsLater(a: string, b: string, k: int)
    requires SplitsAt(a, b, k) && k > 0
    ensures a[0] == b[0] && SplitsAt(a[1..], b[1..], k - 1)
  {
    assert a[..k][0] == b[..k][0];
    assert a[1..][..k - 1] == a[..k][1..] && b[1..][..k - 1] == b[..k][1..];
  }

  lemma {:induction false} StringsMean(a: string, b: string)
    ensures CompareStrings(a, b) < 0 <==> DictionaryLess(a, b)
    decreases |a|
  {
    if a != "" && b != "" {
      forall k | SplitsAt(a, b, k) && k > 0 ensures a[0] == b[0] && SplitsAt(a[1..], b[1..], k - 1) {
        SplitsLater(a, b, k);
      }
      if a[0] == b[0] {
        StringsMean(a[1..], b[1..]);
        if k :| SplitsAt(a[1..], b[1..], k) {
          assert a[..k + 1] == [a[0]] + a[1..][..k] && b[..k + 1] == [b[0]] + b[1..][..k];
          assert SplitsAt(a, b, k + 1);
        }
      }
    }
    if a == "" || (b != "" && a[0] < b[0]) {
      assert b != "" ==> SplitsAt(a, b, 0);
    }
  }

  /** The ascending order: null first, numbers by size, strings as in the dictionary; values of
      different types, and truth values, are not ordered. */
  ghost predicate Below(a: Value, b: Value) {
    match (a, b)
    case (Null, _) => !b.Null?
    case (Int(x), Int(y)) => x < y
    case (Double(x), Double(y)) => x < y
    case (Str(x), Str(y)) => DictionaryLess(x, y)
    case _ => false
  }

  /** DESC is the ascending order reversed, nulls included. */
  lemma KeyLessMeans(desc: bool, a: Value, b: Value)
    ensures KeyLess(desc, a, b) <==> if desc then Below(b, a) else Below(a, b)
  {
    ValuesAntisymmetric(a, b);
    if a.Str? && b.Str? {
      StringsMean(a.s, b.s);
      StringsMean(b.s, a.s);
    }
  }

  /** The key puts row a before row b: DESC is the ascending order reversed. */
  ghost predicate Before(k: OrderKey, a: Row, b: Row)
    requires k.column in a && k.column in b
  {
    if k.desc then Below(b[k.column], a[k.column]) else Below(a[k.column], b[k.column])
  }

  predicate HasColumns(keys: seq<OrderKey>, row: Row) {
    forall i :: 0 <= i < |keys| ==> keys[i].column in row
  }

  /** Key m decides: it puts a before b, and the keys before it put neither before the other. */
  ghost predicate DecidedBy(keys: seq<OrderKey>, a: Row, b: Row, m: nat)
    requires HasColumns(keys, a) && HasColumns(keys, b)
  {
    m < |keys| && Before(keys[m], a, b) && forall i :: 0 <= i < m ==> !Before(keys[i], a, b) && !Before(keys[i], b, a)
  }

  lemma SignMeans(k: OrderKey, a: Row, b: Row)
    requires k.column in a && k.column in b
    ensures Sign(k, a, b) < 0 <==> Before(k, a, b)
    ensures Sign(k, a, b) == 0 <==> !Before(k, a, b) && !Before(k, b, a)
  {
    KeyLessMeans(k.desc, a[k.column], b[k.column]);
    KeyLessMeans(k.desc, b[k.column], a[k.column]);
    KeyAntisymmetric(k.desc, a[k.column], b[k.column]);
  }

  lemma DecidedLater(keys: seq<OrderKey>, a: Row, b: Row)
    requires keys != [] && HasColumns(keys, a) && HasColumns(keys, b)
    requires !Before(keys[0], a, b) && !Before(keys[0], b, a)
    ensures HasColumns(keys[1..], a) && HasColumns(keys[1..], b)
    ensures (exists m :: DecidedBy(keys, a, b, m)) <==> exists m :: DecidedBy(keys[1..], a, b, m)
  {
    var later := keys[1..];
    if m: nat :| DecidedBy(later, a, b, m) {
      forall i | 0 <= i < m + 1 ensures !Before(keys[i], a, b) && !Before(keys[i], b, a) {
        if i > 0 { assert keys[i] == later[i - 1]; }
      }
      assert DecidedBy(keys, a, b, m + 1);
    }
    if m: nat :| DecidedBy(keys, a, b, m) {
      forall i | 0 <= i < m - 1 ensures !Before(later[i], a, b) && !Before(later[i], b, a) {
        assert later[i] == keys[i + 1];
      }
      assert DecidedBy(later, a, b, m - 1);
    }
  }

  /** The keys rank the rows lexicographically: the first that puts one before the other decides. */
  lemma {:induction false} RowLessMeans(keys: seq<OrderKey>, a: Row, b: Row)
    requires HasColumns(keys, a) && HasColumns(keys, b)
    ensures RowLess(keys, a, b) <==> exists m :: DecidedBy(keys, a, b, m)
    decreases |keys|
  {
    if keys != [] {
      SignMeans(keys[0], a, b);
      SignMeans(keys[0], b, a);
      SignAntisymmetric(keys[0], a, b);
      if Before(keys[0], a, b) {
        assert DecidedBy(keys, a, b, 0);
      } else if !Before(keys[0], b, a) {
        DecidedLater(keys, a, b);
        RowLessMeans(keys[1..], a, b);
      }
    }
  }

  // ----- One key -----

  /** A column that is neither of one type nor without differences has a value straddled by two others. */
  lemma MixedColumn(values: set<Value>) returns (x: Value, y: Value, z: Value)
    requires !OneType(values) && !NoneDiffer(values)
    ensures x in values && y in values && z in values && !x.Null? && !y.Null? && !z.Null?
    ensures CompareValues(x, y) < 0 && !SameType(x, z)
  {
    var p, q :| p in values && q in values && !p.Null? && !q.Null? && !SameType(p, q);
    x, y :| x in values && y in values && !x.Null? && !y.Null? && CompareValues(x, y) != 0;
    ValuesAntisymmetric(x, y);
    if CompareValues(x, y) > 0 { x, y := y, x; }
    z := if SameType(p, x) then q else p;
  }

  /** For a single ORDER BY key, the comparator is a strict weak order on the values of the
      column exactly when these are of one type, or no two of them compare as different. */
  lemma SingleKeyIff(desc: bool, values: set<Value>)
    ensures StrictWeakOrder((a: Value, b: Value) => KeyLess(desc, a, b), values)
      <==> OneType(values) || NoneDiffer(values)
  {
    var less := (a: Value, b: Value) => KeyLess(desc, a, b);
    if OneType(values) || NoneDiffer(values) {
      var cmp := (a: Value, b: Value) => CompareKey(desc, a, b);
      forall a, b | a in values && b in values ensures cmp(b, a) == -cmp(a, b) { KeyAntisymmetric(desc, a, b); }
      forall a, b, c | a in values && b in values && c in values && cmp(a, b) <= 0 && cmp(b, c) <= 0
        ensures cmp(a, c) <= 0
      {
        KeyTransitive(desc, a, b, c);
      }
      ConsistentIsWeakOrder(cmp, less, values);
    } else {
      var x, y, z := MixedColumn(values);
      ValuesAntisymmetric(x, y);
      // z is incomparable to both x and y, which are comparable.
      assert !less(x, z) && !less(z, x) && !less(y, z) && !less(z, y);
      assert less(x, y) || less(y, x);
    }
  }

  // ----- Any number of keys -----

  lemma SignAntisymmetric(k: OrderKey, a: Row, b: Row)
    ensures Sign(k, b, a) == -Sign(k, a, b)
  {
    KeyAntisymmetric(k.desc, Field(a, k.column), Field(b, k.column));
  }

  lemma {:induction false} RowsAntisymmetric(keys: seq<OrderKey>, a: Row, b: Row)
    ensures CompareRows(keys, b, a) == -CompareRows(keys, a, b)
    decreases |keys|
  {
    if keys != [] {
      SignAntisymmetric(keys[0], a, b);
      RowsAntisymmetric(keys[1..], a, b);
    }
  }

  /** The key puts row a before row b, and z holds a value of another type, tied with both. */
  predicate StraddledBy(k: OrderKey, a: Row, b: Row, z: Row) {
    Straddles(k.desc, Field(a, k.column), Field(b, k.column), Field(z, k.column))
  }

  /** If the first key that tells the three rows apart straddles z by a and b, then the keys
      after it put z after a or before b. */
  predicate Settled(keys: seq<OrderKey>, a: Row, b: Row, z: Row)
    decreases |keys|
  {
    keys == [] ||
    var k, later := keys[0], keys[1..];
    if StraddledBy(k, a, b, z) then RowLess(later, a, z) || RowLess(later, z, b)
    else Sign(k, a, b) == 0 && Sign(k, a, z) == 0 && Sign(k, b, z) == 0 ==> Settled(later, a, b, z)
  }

  lemma SignTransitive(k: OrderKey, a: Row, b: Row, c: Row)
    requires Sign(k, a, b) <= 0 && Sign(k, b, c) <= 0 && !StraddledBy(k, c, a, b)
    ensures Sign(k, a, c) <= 0
  {
    KeyTransitive(k.desc, Field(a, k.column), Field(b, k.column), Field(c, k.column));
  }

  /** With no row straddled, three rows in a circle are all tied. */
  lemma CircleIsTied(k: OrderKey, p: Row, q: Row, r: Row)
    requires Sign(k, p, q) <= 0 && Sign(k, q, r) <= 0
    requires !StraddledBy(k, p, q, r) && !StraddledBy(k, q, r, p) && !StraddledBy(k, r, p, q)
    ensures Sign(k, p, r) < 0 || (Sign(k, p, q) == 0 && Sign(k, q, r) == 0 && Sign(k, p, r) == 0)
  {
    SignAntisymmetric(k, p, q);
    SignAntisymmetric(k, q, r);
    SignAntisymmetric(k, p, r);
    SignTransitive(k, p, q, r);
    if Sign(k, p, r) == 0 {
      SignTransitive(k, q, r, p);
      SignTransitive(k, r, p, q);
    }
  }

  lemma {:induction false} RowsTransitive(keys: seq<OrderKey>, p: Row, q: Row, r: Row)
    requires Settled(keys, p, q, r) && Settled(keys, q, r, p) && Settled(keys, r, p, q)
    requires CompareRows(keys, p, q) <= 0 && CompareRows(keys, q, r) <= 0
    ensures CompareRows(keys, p, r) <= 0
    decreases |keys|
  {
    if keys != [] {
      var k, later := keys[0], keys[1..];
      RowsAntisymmetric(later, p, q);
      RowsAntisymmetric(later, q, r);
      RowsAntisymmetric(later, p, r);
      SignAntisymmetric(k, p, q);
      SignAntisymmetric(k, q, r);
      SignAntisymmetric(k, p, r);
      if !StraddledBy(k, p, q, r) && !StraddledBy(k, q, r, p) && !StraddledBy(k, r, p, q) {
        CircleIsTied(k, p, q, r);
        if Sign(k, p, r) == 0 { RowsTransitive(later, p, q, r); }
      }
    }
  }

  /** Three rows that are not settled are a before b with z neither after a nor before b. */
  lemma {:induction false} UnsettledIsBroken(keys: seq<OrderKey>, a: Row, b: Row, z: Row)
    requires !Settled(keys, a, b, z)
    ensures RowLess(keys, a, b) && !RowLess(keys, a, z) && !RowLess(keys, z, b)
    decreases |keys|
  {
    var k := keys[0];
    SignAntisymmetric(k, a, z);
    SignAntisymmetric(k, b, z);
    if !StraddledBy(k, a, b, z) { UnsettledIsBroken(keys[1..], a, b, z); }
  }

  /** The lambda for given keys. */
  function Lambda(keys: seq<OrderKey>): (Row, Row) -> bool {
    (a: Row, b: Row) => RowLess(keys, a, b)
  }

  /** For any keys and any rows, the comparator is a strict weak order on the rows exactly when
      all three rows among them are settled. */
  lemma WeakOrderIff(keys: seq<OrderKey>, rows: set<Row>)
    ensures StrictWeakOrder(Lambda(keys), rows)
      <==> forall a, b, z :: a in rows && b in rows && z in rows ==> Settled(keys, a, b, z)
  {
    if forall a, b, z :: a in rows && b in rows && z in rows ==> Settled(keys, a, b, z) {
      SettledIsWeakOrder(keys, rows);
    } else {
      var a, b, z :| a in rows && b in rows && z in rows && !Settled(keys, a, b, z);
      UnsettledIsBroken(keys, a, b, z);
      if StrictWeakOrder(Lambda(keys), rows) { WeakOrderSplits(Lambda(keys), rows, a, b, z); }
    }
  }

  lemma SettledIsWeakOrder(keys: seq<OrderKey>, rows: set<Row>)
    requires forall a, b, z :: a in rows && b in rows && z in rows ==> Settled(keys, a, b, z)
    ensures StrictWeakOrder(Lambda(keys), rows)
  {
    var cmp := (a: Row, b: Row) => CompareRows(keys, a, b);
    forall a, b | a in rows && b in rows ensures cmp(b, a) == -cmp(a, b) { RowsAntisymmetric(keys, a, b); }
    forall a, b, c | a in rows && b in rows && c in rows && cmp(a, b) <= 0 && cmp(b, c) <= 0 ensures cmp(a, c) <= 0 {
      RowsTransitive(keys, a, b, c);
    }
    ConsistentIsWeakOrder(cmp, Lambda(keys), rows);
  }

  /** A strict weak order puts any third element on one side of two that it tells apart. */
  lemma WeakOrderSplits<T>(less: (T, T) -> bool, s: set<T>, a: T, b: T, z: T)
    requires StrictWeakOrder(less, s) && a in s && b in s && z in s
    ensures less(a, b) ==> less(a, z) || less(z, b)
  {
    assert less(z, a) && less(a, b) ==> less(z, b);
    assert less(a, b) && less(b, z) ==> less(a, z);
  }

  // ----- Column by column -----

  /** The values that the rows have in a column. */
  function ColumnValues(column: string, rows: set<Row>): set<Value> {
    set row | row in rows :: Field(row, column)
  }

  ghost predicate ColumnSorts(column: string, rows: set<Row>) {
    OneType(ColumnValues(column, rows)) || NoneDiffer(ColumnValues(column, rows))
  }

  /** In each ORDER BY column, the non-null values of the rows are of one type, or none differ. */
  ghost predicate Sortable(keys: seq<OrderKey>, rows: set<Row>) {
    forall k :: k in keys ==> ColumnSorts(k.column, rows)
  }

  lemma {:induction false} SortableSettles(keys: seq<OrderKey>, rows: set<Row>, a: Row, b: Row, z: Row)
    requires Sortable(keys, rows) && a in rows && b in rows && z in rows
    ensures Settled(keys, a, b, z)
    decreases |keys|
  {
    if keys != [] {
      var k := keys[0];
      var values := ColumnValues(k.column, rows);
      assert k in keys && ColumnSorts(k.column, rows);
      var x, y, w := Field(a, k.column), Field(b, k.column), Field(z, k.column);
      assert x in values && y in values && w in values;
      ValuesAntisymmetric(x, y);
      assert !StraddledBy(k, a, b, z);
      SortableSettles(keys[1..], rows, a, b, z);
    }
  }

  /** Then the comparator is a strict weak order on the rows, for any number of keys. */
  lemma ComparatorIsWeakOrder(keys: seq<OrderKey>, rows: set<Row>)
    requires Sortable(keys, rows)
    ensures StrictWeakOrder(Lambda(keys), rows)
  {
    forall a, b, z | a in rows && b in rows && z in rows ensures Settled(keys, a, b, z) {
      SortableSettles(keys, rows, a, b, z);
    }
    WeakOrderIff(keys, rows);
  }

  /** Any row may take any other row's value in an ORDER BY column, as when the rows are all
      those drawn from given sets of values. */
  ghost predicate Exchangeable(keys: seq<OrderKey>, rows: set<Row>) {
    forall k, a, b :: k in keys && a in rows && b in rows ==> a[k.column := Field(b, k.column)] in rows
  }

  lemma {:induction false} TiedThroughout(keys: seq<OrderKey>, column: string, row: Row, x: Value, y: Value)
    requires !x.Null? && !y.Null? && CompareValues(x, y) == 0
    ensures CompareRows(keys, row[column := x], row[column := y]) == 0
    decreases |keys|
  {
    if keys != [] {
      SignAntisymmetric(keys[0], row, row);
      TiedThroughout(keys[1..], column, row, x, y);
    }
  }

  /** Rows that differ in one key column only, where they straddle, are not settled. */
  lemma {:induction false} StraddlingRows(keys: seq<OrderKey>, k: OrderKey, row: Row, x: Value, y: Value, z: Value)
    requires k in keys && !x.Null? && !y.Null? && !z.Null? && CompareValues(x, y) < 0 && !SameType(x, z)
    ensures var a, b, c := row[k.column := x], row[k.column := y], row[k.column := z];
      !Settled(keys, a, b, c) || !Settled(keys, b, a, c)
    decreases |keys|
  {
    var a, b, c := row[k.column := x], row[k.column := y], row[k.column := z];
    var first, later := keys[0], keys[1..];
    ValuesAntisymmetric(x, y);
    if first.column == k.column {
      TiedThroughout(later, k.column, row, x, z);
      TiedThroughout(later, k.column, row, z, x);
      TiedThroughout(later, k.column, row, y, z);
      TiedThroughout(later, k.column, row, z, y);
    } else {
      SignAntisymmetric(first, row, row);
      assert k in later;
      StraddlingRows(later, k, row, x, y, z);
    }
  }

  lemma ExchangedRow(keys: seq<OrderKey>, rows: set<Row>, k: OrderKey, row: Row, v: Value)
    requires Exchangeable(keys, rows) && k in keys && row in rows && v in ColumnValues(k.column, rows)
    ensures row[k.column := v] in rows
  {
    var other :| other in rows && Field(other, k.column) == v;
    assert row[k.column := Field(other, k.column)] in rows;
  }

  lemma MixedColumnUnsettles(keys: seq<OrderKey>, rows: set<Row>, k: OrderKey) returns (a: Row, b: Row, z: Row)
    requires Exchangeable(keys, rows) && k in keys && !ColumnSorts(k.column, rows)
    ensures a in rows && b in rows && z in rows && !Settled(keys, a, b, z)
  {
    var x, y, w := MixedColumn(ColumnValues(k.column, rows));
    var row :| row in rows;
    ExchangedRow(keys, rows, k, row, x);
    ExchangedRow(keys, rows, k, row, y);
    ExchangedRow(keys, rows, k, row, w);
    StraddlingRows(keys, k, row, x, y, w);
    a, b, z := row[k.column := x], row[k.column := y], row[k.column := w];
    if Settled(keys, a, b, z) { a, b := b, a; }
  }

  /** On exchangeable rows, the comparator of any number of keys is a strict weak order exactly
      when each ORDER BY column is of one type or without differences. */
  lemma ColumnsIff(keys: seq<OrderKey>, rows: set<Row>)
    requires Exchangeable(keys, rows)
    ensures StrictWeakOrder(Lambda(keys), rows) <==> Sortable(keys, rows)
  {
    if Sortable(keys, rows) {
      ComparatorIsWeakOrder(keys, rows);
    } else {
      var k :| k in keys && !ColumnSorts(k.column, rows);
      var a, b, z := MixedColumnUnsettles(keys, rows, k);
      WeakOrderIff(keys, rows);
    }
  }

  /** Without it, the promise to std::sort can be broken: a string is incomparable to both
      integers 1 and 2. */
  lemma MixedTypesBreakOrder()
    ensures var rows: set<Row> := {map["c" := Int(1)], map["c" := Str("x")], map["c" := Int(2)]};
      !StrictWeakOrder(Lambda([OrderKey("c", false)]), rows)
  {
    var keys := [OrderKey("c", false)];
    var one: Row, mixed: Row, two: Row := map["c" := Int(1)], map["c" := Str("x")], map["c" := Int(2)];
    var less := Lambda(keys);
    assert keys[1..] == [];
    assert !less(one, mixed) && !less(mixed, one) && !less(mixed, two) && !less(two, mixed) && less(one, two);
  }

  // ----- Sorting -----

  function Elements<T>(s: seq<T>): set<T> {
    set x | x in s
  }

  ghost predicate SortedBy<T>(less: (T, T) -> bool, s: seq<T>) {
    forall i, j :: 0 <= i < j < |s| ==> !less(s[j], s[i])
  }

  /** Some comparison may raise an error: the comparator checks a key's column when it reaches
      that key, and nothing is compared among fewer than two rows. */
  predicate MayRaise(names: set<string>, keys: seq<OrderKey>, rows: seq<Row>) {
    |rows| > 1 && exists i :: 0 <= i < |keys| && keys[i].column !in names
  }

  /** Every comparison raises an error: the first key's column is missing. */
  predicate MustRaise(names: set<string>, keys: seq<OrderKey>, rows: seq<Row>) {
    |rows| > 1 && keys != [] && keys[0].column !in names
  }

  /** A sort: given the columns there are, the keys and the rows; None if the comparator raised
      an error. */
  type Sorter = (set<string>, seq<OrderKey>, seq<Row>) -> Option<seq<Row>>

  /** What std::sort promises: no error where none can be raised, one where all comparisons
      raise it; and given a strict weak order that raises none, a sorted permutation. */
  ghost predicate IsStdSort(sort: Sorter) {
    forall names, keys, rows :: SortsWell(names, keys, rows, sort(names, keys, rows))
  }

  ghost predicate SortsWell(names: set<string>, keys: seq<OrderKey>, rows: seq<Row>, r: Option<seq<Row>>) {
    && (r.None? ==> MayRaise(names, keys, rows))
    && (MustRaise(names, keys, rows) ==> r.None?)
    && (!MayRaise(names, keys, rows) && StrictWeakOrder(Lambda(keys), Elements(rows)) ==>
          r.Some? && SortedBy(Lambda(keys), r.value) && multiset(r.value) == multiset(rows))
  }

  /** A sorter of the kind: insertion of each row behind those that do not come after it. */
  function InsertSorted(keys: seq<OrderKey>, row: Row, s: seq<Row>): seq<Row> {
    if s == [] then [row]
    else if RowLess(keys, row, s[0]) then [row] + s
    else [s[0]] + InsertSorted(keys, row, s[1..])
  }

  function InsertionSort(keys: seq<OrderKey>, rows: seq<Row>): seq<Row> {
    if rows == [] then [] else InsertSorted(keys, rows[|rows| - 1], InsertionSort(keys, rows[..|rows| - 1]))
  }

  lemma {:induction false} InsertPermutes(keys: seq<OrderKey>, row: Row, s: seq<Row>)
    ensures multiset(InsertSorted(keys, row, s)) == multiset(s) + multiset{row}
  {
    if s != [] {
      assert s == [s[0]] + s[1..];
      InsertPermutes(keys, row, s[1..]);
    }
  }

  /** A row that comes before the first of a sorted sequence comes after none of it. */
  lemma BeforeFirst(less: (Row, Row) -> bool, all: set<Row>, row: Row, s: seq<Row>, j: nat)
    requires StrictWeakOrder(less, all) && row in all && (forall x :: x in s ==> x in all)
    requires SortedBy(less, s) && j < |s| && less(row, s[0])
    ensures !less(s[j], row)
  {
    assert s[0] in s && s[j] in s;
    assert j == 0 || !less(s[j], s[0]);
  }

  lemma InsertedAfter(keys: seq<OrderKey>, row: Row, s: seq<Row>, j: nat)
    requires s != [] && SortedBy(Lambda(keys), s) && !RowLess(keys, row, s[0]) && j < |InsertSorted(keys, row, s[1..])|
    ensures !RowLess(keys, InsertSorted(keys, row, s[1..])[j], s[0])
  {
    var tail := InsertSorted(keys, row, s[1..]);
    InsertPermutes(keys, row, s[1..]);
    assert tail[j] in multiset(tail);
    if tail[j] != row {
      var k :| 0 <= k < |s[1..]| && s[1..][k] == tail[j];
      assert !Lambda(keys)(s[k + 1], s[0]);
    }
  }

  lemma {:induction false} InsertSorts(keys: seq<OrderKey>, all: set<Row>, row: Row, s: seq<Row>)
    requires StrictWeakOrder(Lambda(keys), all) && row in all && (forall x :: x in s ==> x in all)
    requires SortedBy(Lambda(keys), s)
    ensures SortedBy(Lambda(keys), InsertSorted(keys, row, s))
  {
    if s != [] {
      if RowLess(keys, row, s[0]) {
        forall j | 0 <= j < |s| ensures !RowLess(keys, s[j], row) { BeforeFirst(Lambda(keys), all, row, s, j); }
      } else {
        var tail := InsertSorted(keys, row, s[1..]);
        InsertSorts(keys, all, row, s[1..]);
        forall j | 0 <= j < |tail| ensures !RowLess(keys, tail[j], s[0]) { InsertedAfter(keys, row, s, j); }
      }
    }
  }

  lemma {:induction false} InsertionSortSorts(keys: seq<OrderKey>, all: set<Row>, rows: seq<Row>)
    requires StrictWeakOrder(Lambda(keys), all) && forall x :: x in rows ==> x in all
    ensures SortedBy(Lambda(keys), InsertionSort(keys, rows)) && multiset(InsertionSort(keys, rows)) == multiset(rows)
    decreases |rows|
  {
    if rows != [] {
      var init, last := rows[..|rows| - 1], rows[|rows| - 1];
      assert rows == init + [last];
      InsertionSortSorts(keys, all, init);
      var s := InsertionSort(keys, init);
      forall x | x in s ensures x in all { assert x in multiset(s); }
      InsertSorts(keys, all, last, s);
      InsertPermutes(keys, last, s);
    }
  }

  /** Insertion sort with a check of the columns before it. */
  function CheckedSort(names: set<string>, keys: seq<OrderKey>, rows: seq<Row>): Option<seq<Row>> {
    if MayRaise(names, keys, rows) then None else Some(InsertionSort(keys, rows))
  }

  /** So the promise can be kept. */
  lemma CheckedSortIsStdSort()
    ensures IsStdSort(CheckedSort)
  {
    forall names, keys, rows ensures SortsWell(names, keys, rows, CheckedSort(names, keys, rows)) {
      if StrictWeakOrder(Lambda(keys), Elements(rows)) { InsertionSortSorts(keys, Elements(rows), rows); }
    }
  }
}
