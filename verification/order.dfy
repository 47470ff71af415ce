/** How the `log` command turns its `--sort` and `--order` flags into an
    ORDER BY clause (cmd/cli.go, `DoOrder` and `mapPriority`). The clause is
    modelled as a closed set of orders, each with the sort key SQLite would
    compute for a row. */
module OrderBuilder {
  import opened Text
  import opened Ordering
  import opened Model

  /** `mapPriority`: the `set prio` value parser. Only "low" and "high" are
      special; "med", "medium", "" and anything else give medium. */
  function MapPriority(s: string): (p: DoPrio)
    ensures p == Low <==> s == "low"
    ensures p == High <==> s == "high"
    ensures p == Medium <==> s != "low" && s != "high"
  {
    match s
    case "low" => Low
    case "med" => Medium
    case "high" => High
    case _ => Medium
  }

  /** The `CASE priority` rank: high first, low last, anything else in the
      middle with medium. */
  function PriorityRank(p: DoPrio): (r: int)
    ensures 1 <= r <= 3
    ensures r == 1 <==> p == High
    ensures r == 3 <==> p == Low
  {
    if p == High then 1 else if p == Low then 3 else 2
  }

  datatype Direction = Asc | Desc

  datatype Column = CreatedAtCol | CompletedAtCol | DescriptionCol | TypeCol | PriorityCol

  datatype Order = ByColumn(col: Column, dir: Direction) | Composite

  /** Only "asc" sorts ascending; "desc" and every unknown token descend. */
  function ParseDirection(token: string): (d: Direction)
    ensures d == Asc <==> token == "asc"
  {
    if token == "asc" then Asc else Desc
  }

  function ColumnName(c: Column): string {
    match c
    case CreatedAtCol => "created_at"
    case CompletedAtCol => "completed_at"
    case DescriptionCol => "description"
    case TypeCol => "type"
    case PriorityCol => "priority"
  }

  function ParseColumn(token: string): (r: Option<Column>)
    ensures r.Some? ==> ColumnName(r.value) == token
  {
    match token
    case "created_at" => Some(CreatedAtCol)
    case "completed_at" => Some(CompletedAtCol)
    case "description" => Some(DescriptionCol)
    case "type" => Some(TypeCol)
    case "priority" => Some(PriorityCol)
    case _ => None
  }

  /** Every column is recognised by its own name, and by nothing else. */
  lemma ParseColumnName(c: Column)
    ensures ParseColumn(ColumnName(c)) == Some(c)
  {
  }

  lemma ParseColumnNone(token: string)
    ensures ParseColumn(token).None? <==> forall c: Column :: ColumnName(c) != token
  {
    if ParseColumn(token).None? {
      forall c: Column ensures ColumnName(c) != token {
        ParseColumnName(c);
      }
    }
  }

  /** `DoOrder(sortby, orderby)`. A recognised column sorts by that column
      alone in the parsed direction; "default" and every unrecognised token
      give the composite order, whatever the direction token says. */
  function DoOrder(sortby: string, orderby: string): (o: Order)
    ensures o.Composite? <==> forall c: Column :: ColumnName(c) != sortby
    ensures o.ByColumn? ==> ColumnName(o.col) == sortby
    ensures o.ByColumn? ==> (o.dir == Asc <==> orderby == "asc")
  {
    match ParseColumn(sortby)
    case Some(c) => ByColumn(c, ParseDirection(orderby))
    case None =>
      ParseColumnNone(sortby);
      Composite
  }

  /** The warnings `DoOrder` prints. As written, the unknown-sort warning
      quotes the direction token, not the sort token. */
  datatype Diagnostic = NoSuchOrder(token: string) | NoSuchSort(token: string)

  function Diagnostics(sortby: string, orderby: string): (r: seq<Diagnostic>)
    ensures NoSuchOrder(orderby) in r <==> orderby != "asc" && orderby != "desc"
    ensures (exists k :: 0 <= k < |r| && r[k].NoSuchSort?)
            <==> DoOrder(sortby, orderby).Composite? && sortby != "default"
    ensures forall k :: 0 <= k < |r| ==> r[k].token == orderby
  {
    ParseColumnNone(sortby);
    var order := if orderby != "asc" && orderby != "desc" then [NoSuchOrder(orderby)] else [];
    var sort := if ParseColumn(sortby).None? && sortby != "default" then [NoSuchSort(orderby)] else [];
    var r := order + sort;
    assert sort != [] ==> r[|order|].NoSuchSort?;
    assert forall k :: 0 <= k < |order| ==> r[k].NoSuchOrder?;
    r
  }

  /** The column's value as SQLite sees it: booleans as 0/1, a missing
      completion time as NULL, priority through its rank. */
  function ColumnValue(c: Column, d: Do): Value {
    match c
    case CreatedAtCol => Num(d.createdAt)
    case CompletedAtCol => (match d.completedAt case None => Null case Some(t) => Num(t))
    case DescriptionCol => Text(d.description)
    case TypeCol => Text(d.doType)
    case PriorityCol => Num(PriorityRank(d.priority))
  }

  /** The sort key the ORDER BY clause gives a row. */
  function OrderKey(o: Order, d: Do): Key {
    match o
    case ByColumn(c, dir) => [Term(ColumnValue(c, d), dir == Desc)]
    case Composite =>
      [Term(Num(if d.completed then 1 else 0), false),
       Term(Num(PriorityRank(d.priority)), false),
       Term(Num(d.createdAt), true)]
  }

  /** A single-column order compares that column, reversed for DESC. */
  lemma SingleColumnOrder(c: Column, dir: Direction, a: Do, b: Do)
    ensures Le(OrderKey(ByColumn(c, dir), a), OrderKey(ByColumn(c, dir), b))
            <==> if dir == Asc then ValueCmp(ColumnValue(c, a), ColumnValue(c, b)) <= 0
                 else ValueCmp(ColumnValue(c, b), ColumnValue(c, a)) <= 0
  {
    KeyCmpSingle(Term(ColumnValue(c, a), dir == Desc), Term(ColumnValue(c, b), dir == Desc));
    ValueCmpAntisym(ColumnValue(c, a), ColumnValue(c, b));
  }

  /** Sorting by priority compares ranks: ascending lists high first,
      descending lists low first. */
  lemma PriorityOrder(dir: Direction, a: Do, b: Do)
    ensures Le(OrderKey(ByColumn(PriorityCol, dir), a), OrderKey(ByColumn(PriorityCol, dir), b))
            <==> if dir == Asc then PriorityRank(a.priority) <= PriorityRank(b.priority)
                 else PriorityRank(a.priority) >= PriorityRank(b.priority)
  {
    SingleColumnOrder(PriorityCol, dir, a, b);
  }

  /** With `--sort priority --order desc` a low-priority do comes strictly
      before a high-priority one; ascending reverses that. */
  lemma PriorityDescListsLowFirst(low: Do, high: Do)
    requires low.priority == Low && high.priority == High
    ensures !Le(OrderKey(ByColumn(PriorityCol, Desc), high), OrderKey(ByColumn(PriorityCol, Desc), low))
    ensures !Le(OrderKey(ByColumn(PriorityCol, Asc), low), OrderKey(ByColumn(PriorityCol, Asc), high))
  {
    PriorityOrder(Desc, high, low);
    PriorityOrder(Asc, low, high);
  }

  /** The composite order: incomplete before complete, then by rank, then
      newest first. */
  lemma CompositeOrder(a: Do, b: Do)
    ensures Le(OrderKey(Composite, a), OrderKey(Composite, b))
            <==> || (!a.completed && b.completed)
                 || (a.completed == b.completed
                     && (|| PriorityRank(a.priority) < PriorityRank(b.priority)
                         || (PriorityRank(a.priority) == PriorityRank(b.priority)
                             && a.createdAt >= b.createdAt)))
  {
    var ka, kb := OrderKey(Composite, a), OrderKey(Composite, b);
    KeyCmpCons(ka[0], ka[1..], kb[0], kb[1..]);
    KeyCmpCons(ka[1], ka[2..], kb[1], kb[2..]);
    KeyCmpSingle(ka[2], kb[2]);
    assert ka == [ka[0]] + ka[1..] && kb == [kb[0]] + kb[1..];
    assert ka[1..] == [ka[1]] + ka[2..] && kb[1..] == [kb[1]] + kb[2..];
    assert ka[2..] == [ka[2]] && kb[2..] == [kb[2]];
  }
}
