/** The listing queries of cmd/cli.go: `log` and `today` (WHERE, ORDER BY,
    LIMIT over the `dos` table) and `crew` (tags with their assignment
    counts). Each is the filter, the order and the limit applied to a table
    scan, and each is proved to be a correct top-n answer (`IsTopN`) for the
    rows its filter admits. */
module Query {
  import opened Text
  import opened Ordering
  import opened Sorting
  import opened Model
  import opened OrderBuilder

  const SecondsPerDay: int := 86400

  /** `time.Now().AddDate(0, 0, -days)`, in seconds. */
  function Horizon(now: Time, days: int): Time {
    now - days * SecondsPerDay
  }

  /** `completed_at IS NULL OR completed_at >= horizon`. */
  predicate WithinWindow(d: Do, horizon: Time) {
    d.completedAt.None? || d.completedAt.value >= horizon
  }

  /** The flags of `log`: `-n`, `--sort`, `--order`, `--all`. */
  datatype LogFlags = LogFlags(n: int, sort: string, order: string, all: bool)

  /** The flag defaults: ten rows, default sort, descending, windowed. */
  const DefaultFlags: LogFlags := LogFlags(10, "default", "desc", false)

  /** The WHERE clause of `log`: live rows, and unless `--all`, only rows not
      completed before the horizon. */
  function LogFilter(all: bool, horizon: Time): Do -> bool {
    (d: Do) => !d.deleted && (all || WithinWindow(d, horizon))
  }

  function SortKey(o: Order): Do -> Key {
    (d: Do) => OrderKey(o, d)
  }

  /** The rows the WHERE clause admits, in primary-key order. */
  function Candidates(s: Store, keep: Do -> bool): (r: seq<Do>)
    requires Valid(s)
    ensures forall d :: d in r <==> d in s.dos.rows.Values && keep(d)
  {
    var rows := Scan(s.dos);
    var r := Filter(rows, keep);
    assert forall d :: d in r <==> d in rows && keep(d) by {
      forall d ensures d in r <==> d in rows && keep(d) {
        assert d in r <==> d in multiset(r);
        assert d in rows <==> d in multiset(rows);
      }
    }
    ScanMembers(s.dos);
    r
  }

  /** `log`: the live, windowed rows in `DoOrder` order, at most n of them. */
  function LogQuery(s: Store, flags: LogFlags, now: Time, lookBackDays: int): (r: seq<Do>)
    requires Valid(s)
    ensures IsTopN(Candidates(s, LogFilter(flags.all, Horizon(now, lookBackDays))),
                   flags.n, SortKey(DoOrder(flags.sort, flags.order)), r)
  {
    SelectTop(Candidates(s, LogFilter(flags.all, Horizon(now, lookBackDays))),
              flags.n, SortKey(DoOrder(flags.sort, flags.order)))
  }

  /** What a `log` answer guarantees row by row: no deleted row, at most n
      rows, every row a stored row, ordered by the chosen key, and without
      `--all` nothing completed before the horizon. */
  lemma LogQueryRows(s: Store, flags: LogFlags, now: Time, lookBackDays: int)
    requires Valid(s)
    ensures forall d :: d in LogQuery(s, flags, now, lookBackDays) ==>
      && d in s.dos.rows.Values
      && !d.deleted
      && (!flags.all ==> WithinWindow(d, Horizon(now, lookBackDays)))
    ensures flags.n >= 0 ==> |LogQuery(s, flags, now, lookBackDays)| <= flags.n
    ensures Sorted(LogQuery(s, flags, now, lookBackDays), SortKey(DoOrder(flags.sort, flags.order)))
  {
    var keep := LogFilter(flags.all, Horizon(now, lookBackDays));
    var pool := Candidates(s, keep);
    var r := LogQuery(s, flags, now, lookBackDays);
    TopNMembers(pool, flags.n, SortKey(DoOrder(flags.sort, flags.order)), r);
  }

  /** When the limit does not bind, every admitted row is listed. */
  lemma LogQueryComplete(s: Store, flags: LogFlags, now: Time, lookBackDays: int, d: Do)
    requires Valid(s)
    requires flags.n < 0
    requires d in s.dos.rows.Values && LogFilter(flags.all, Horizon(now, lookBackDays))(d)
    ensures d in LogQuery(s, flags, now, lookBackDays)
  {
    var pool := Candidates(s, LogFilter(flags.all, Horizon(now, lookBackDays)));
    var key := SortKey(DoOrder(flags.sort, flags.order));
    SelectAllIsPermutation(pool, key);
    assert d in multiset(pool);
  }

  /** `today`: the same WHERE clause with a one-day horizon that always
      applies, the composite order, and at most 100 rows. */
  function TodayQuery(s: Store, now: Time): (r: seq<Do>)
    requires Valid(s)
    ensures |r| <= 100
    ensures IsTopN(Candidates(s, LogFilter(false, Horizon(now, 1))), 100, SortKey(Composite), r)
  {
    SelectTop(Candidates(s, LogFilter(false, Horizon(now, 1))), 100, SortKey(Composite))
  }

  /** `today` is `log -n 100 --sort default` with a one-day look-back, for any
      direction token. */
  lemma TodayIsLog(s: Store, now: Time, order: string)
    requires Valid(s)
    ensures TodayQuery(s, now) == LogQuery(s, LogFlags(100, "default", order, false), now, 1)
  {
    var flags := LogFlags(100, "default", order, false);
    assert DoOrder(flags.sort, flags.order) == Composite;
    assert SortKey(DoOrder(flags.sort, flags.order)) == SortKey(Composite);
  }

  // ---------------------------------------------------------------- crew

  /** One row of `crew`: a tag's name and how many links point at it. */
  datatype Mate = Mate(name: string, count: int)

  /** `COUNT(do_tags.tag_id)` under the LEFT JOIN for one tag: 0 if unlinked. */
  function LinkCount(links: seq<DoTag>, tagId: nat): (c: nat)
    ensures c <= |links|
    ensures c == 0 <==> forall i :: 0 <= i < |links| ==> links[i].tagId != tagId
  {
    if |links| == 0 then 0
    else (if links[0].tagId == tagId then 1 else 0) + LinkCount(links[1..], tagId)
  }

  function MateKey(): Mate -> Key {
    (m: Mate) => [Term(Num(m.count), true)]
  }

  function MateOf(s: Store, t: Tag): Mate {
    Mate(t.name, LinkCount(s.links, t.id))
  }

  /** One row per tag, in primary-key order. */
  function Mates(s: Store): (r: seq<Mate>)
    requires Valid(s)
    ensures |r| == |s.tags.rows|
    ensures forall t :: t in s.tags.rows.Values ==> MateOf(s, t) in r
    ensures forall m :: m in r ==> exists t :: t in s.tags.rows.Values && m == MateOf(s, t)
  {
    var tags := Scan(s.tags);
    ScanLength(s.tags);
    ScanMembers(s.tags);
    var mates := seq(|tags|, i requires 0 <= i < |tags| => MateOf(s, tags[i]));
    MatesCover(s, tags, mates);
    mates
  }

  lemma MatesCover(s: Store, tags: seq<Tag>, mates: seq<Mate>)
    requires |mates| == |tags|
    requires forall i :: 0 <= i < |tags| ==> mates[i] == MateOf(s, tags[i])
    ensures forall t :: t in tags ==> MateOf(s, t) in mates
    ensures forall m :: m in mates ==> exists t :: t in tags && m == MateOf(s, t)
  {
    forall t | t in tags ensures MateOf(s, t) in mates {
      var i :| 0 <= i < |tags| && tags[i] == t;
      assert mates[i] == MateOf(s, t);
    }
    forall m | m in mates ensures exists t :: t in tags && m == MateOf(s, t) {
      var i :| 0 <= i < |mates| && mates[i] == m;
      assert tags[i] in tags;
    }
  }

  /** Rows in `MateKey` order have non-increasing counts. */
  lemma MateOrderDescending(r: seq<Mate>)
    requires Sorted(r, MateKey())
    ensures forall i, j :: 0 <= i < j < |r| ==> r[i].count >= r[j].count
  {
    forall i, j | 0 <= i < j < |r| ensures r[i].count >= r[j].count {
      assert Le(MateKey()(r[i]), MateKey()(r[j]));
      DescNumber(r[i].count, r[j].count);
    }
  }

  /** `crew`: one row per tag with its link count, largest count first. */
  function CrewQuery(s: Store): (r: seq<Mate>)
    requires Valid(s)
    ensures |r| == |s.tags.rows|
    ensures forall i, j :: 0 <= i < j < |r| ==> r[i].count >= r[j].count
    ensures forall t :: t in s.tags.rows.Values ==> MateOf(s, t) in r
    ensures forall m :: m in r ==> exists t :: t in s.tags.rows.Values && m == MateOf(s, t)
  {
    var mates := Mates(s);
    var r := SortBy(mates, MateKey());
    MateOrderDescending(r);
    PermutationMembers(r, mates);
    r
  }
}
