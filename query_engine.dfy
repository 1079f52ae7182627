/**
 * How the database answers the queries the repositories send: a row is
 * selected when it agrees with every column of the `where` object, `findFirst`
 * and `findUnique` return the first selected row in table order, `count`
 * counts the selected rows and `findMany` returns them in `orderBy` order.
 */
module QueryEngine {
  import opened Optional
  import opened Assertions
  import opened Prisma
  import Sorting

  /** What a write leaves behind: what the call returned or threw, and the table afterwards. */
  datatype Write<R> = Write(outcome: Outcome<R>, rows: seq<R>)

  /** The row agrees with every column the filter names. */
  predicate Matches(c: Columns, w: Where)
  {
    forall k :: k in w ==> k in c && c[k] == w[k]
  }

  /** No filter selects every row. */
  predicate Selected(c: Columns, where: Option<Where>)
  {
    where.None? || Matches(c, where.value)
  }

  /** The selected rows, in table order. */
  function Filter<R(!new)>(rows: seq<R>, cols: R -> Columns, where: Option<Where>): (r: seq<R>)
    ensures |r| <= |rows|
    ensures forall x :: x in r <==> x in rows && Selected(cols(x), where)
  {
    if rows == [] then []
    else (if Selected(cols(rows[0]), where) then [rows[0]] else []) + Filter(rows[1..], cols, where)
  }

  /** The position of the first selected row, if any. */
  function FirstMatch<R>(rows: seq<R>, cols: R -> Columns, where: Option<Where>): (i: Option<nat>)
    ensures i.Some? ==> i.value < |rows| && Selected(cols(rows[i.value]), where)
    ensures i.Some? ==> forall j :: 0 <= j < i.value ==> !Selected(cols(rows[j]), where)
    ensures i.None? ==> forall j :: 0 <= j < |rows| ==> !Selected(cols(rows[j]), where)
  {
    if rows == [] then None
    else if Selected(cols(rows[0]), where) then Some(0)
    else
      match FirstMatch(rows[1..], cols, where)
      case None => None
      case Some(k) => Some(k + 1)
  }

  /** `findFirst` (and `findUnique`, whose filter names a unique column): a selected row, or none when no row is selected. */
  function EvalFindFirst<R(!new)>(rows: seq<R>, cols: R -> Columns, where: Option<Where>): (r: Option<R>)
    ensures r.Some? ==> r.value in rows && Selected(cols(r.value), where)
    ensures r.None? ==> forall x :: x in rows ==> !Selected(cols(x), where)
  {
    match FirstMatch(rows, cols, where)
    case None => None
    case Some(i) => Some(rows[i])
  }

  /** `count`. */
  function EvalCount<R(!new)>(rows: seq<R>, cols: R -> Columns, where: Option<Where>): nat
  {
    |Filter(rows, cols, where)|
  }

  /** Code-point lexicographic order on strings. */
  predicate LexLe(a: string, b: string)
  {
    a == [] || (b != [] && (a[0] < b[0] || (a[0] == b[0] && LexLe(a[1..], b[1..]))))
  }

  lemma {:induction false} LexLeTotal(a: string, b: string)
    ensures LexLe(a, b) || LexLe(b, a)
  {
    if a != [] && b != [] && a[0] == b[0] {
      LexLeTotal(a[1..], b[1..]);
    }
  }

  lemma {:induction false} LexLeTransitive(a: string, b: string, c: string)
    requires LexLe(a, b) && LexLe(b, c)
    ensures LexLe(a, c)
  {
    if a != [] && a[0] == b[0] && b[0] == c[0] {
      LexLeTransitive(a[1..], b[1..], c[1..]);
    }
  }

  function Rank(v: Value): nat
  {
    match v
    case Null => 0
    case Bool(_) => 1
    case Time(_) => 2
    case Text(_) => 3
  }

  /** Order of column values: by kind, then false before true, earlier before later, lexicographic text. */
  predicate ValueLe(a: Value, b: Value)
  {
    match (a, b)
    case (Bool(x), Bool(y)) => !x || y
    case (Time(x), Time(y)) => x <= y
    case (Text(x), Text(y)) => LexLe(x, y)
    case _ => Rank(a) <= Rank(b)
  }

  lemma ValueLeTotal(a: Value, b: Value)
    ensures ValueLe(a, b) || ValueLe(b, a)
  {
    if a.Text? && b.Text? {
      LexLeTotal(a.s, b.s);
    }
  }

  lemma ValueLeTransitive(a: Value, b: Value, c: Value)
    requires ValueLe(a, b) && ValueLe(b, c)
    ensures ValueLe(a, c)
  {
    if a.Text? && b.Text? && c.Text? {
      LexLeTransitive(a.s, b.s, c.s);
    }
  }

  function Get(c: Columns, field: string): Value
  {
    if field in c then c[field] else Null
  }

  predicate ColumnLe(x: Columns, y: Columns, ob: OrderBy)
  {
    if ob.direction == Asc then ValueLe(Get(x, ob.field), Get(y, ob.field))
    else ValueLe(Get(y, ob.field), Get(x, ob.field))
  }

  /** `orderBy: { field: direction }` as an order on rows. */
  function RowOrder<R>(cols: R -> Columns, ob: OrderBy): (R, R) -> bool
  {
    (x: R, y: R) => ColumnLe(cols(x), cols(y), ob)
  }

  lemma RowOrderIsTotalPreorder<R(!new)>(cols: R -> Columns, ob: OrderBy)
    ensures Sorting.TotalPreorder(RowOrder(cols, ob))
  {
    var le := RowOrder(cols, ob);
    forall a, b ensures le(a, b) || le(b, a) {
      ValueLeTotal(Get(cols(a), ob.field), Get(cols(b), ob.field));
    }
    forall a, b, c | le(a, b) && le(b, c) ensures le(a, c) {
      var va, vb, vc := Get(cols(a), ob.field), Get(cols(b), ob.field), Get(cols(c), ob.field);
      if ob.direction == Asc {
        ValueLeTransitive(va, vb, vc);
      } else {
        ValueLeTransitive(vc, vb, va);
      }
    }
  }

  /** `findMany`: the selected rows, sorted when an `orderBy` is given. */
  function EvalFindMany<R(!new)>(rows: seq<R>, cols: R -> Columns, args: Args): (r: seq<R>)
    ensures multiset(r) == multiset(Filter(rows, cols, args.where))
    ensures args.orderBy.Some? ==> Sorting.SortedBy(r, RowOrder(cols, args.orderBy.value))
  {
    var selected := Filter(rows, cols, args.where);
    match args.orderBy
    case None => selected
    case Some(ob) =>
      RowOrderIsTotalPreorder(cols, ob);
      Sorting.Sort(selected, RowOrder(cols, ob))
  }
}
