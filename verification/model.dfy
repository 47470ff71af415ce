/** The persisted records of the task store and the repository operations the
    commands perform on them (cmd/db.go and the GORM calls in cmd/cli.go).

    Each table is a map from primary key to row plus the last key handed out:
    GORM declares `ID uint` primary keys, which SQLite fills from an
    AUTOINCREMENT sequence, so a new row gets one more than the largest key
    ever issued. DoTag rows have no key and are kept in insertion order. */
module Model {
  import opened Text

  /** `DoType` is a string in the store. The code names seven types; the
      values of Task, Ask, Tell and Brag are in cmd/db.go, while the other
      three are declared outside the modelled files, so the values here are
      placeholders: only their being distinct matters. */
  type DoType = string

  const Task: DoType := "task"
  const Ask: DoType := "ask"
  const Tell: DoType := "tell"
  const Brag: DoType := "brag"
  const Learn: DoType := "learn"
  const PR: DoType := "PR"
  const Meta: DoType := "meta"

  const DoTypes: seq<DoType> := [Task, Ask, Tell, Brag, Learn, PR, Meta]

  /** `DoPrio` is a string in the store as well. */
  type DoPrio = string

  const Low: DoPrio := "low"
  const Medium: DoPrio := "medium"
  const High: DoPrio := "high"

  /** Timestamps are whole seconds. */
  type Time = int

  datatype Do = Do(
    id: nat,
    createdAt: Time,
    completedAt: Option<Time>,
    completed: bool,
    description: string,
    doType: DoType,
    priority: DoPrio,
    deleted: bool,
    reason: string,
    pinned: bool,
    sensitive: bool,
    promoted: bool)

  datatype Tag = Tag(id: nat, name: string)

  /** A join row assigning a do to a tag. */
  datatype DoTag = DoTag(doId: nat, tagId: nat)

  /** The documentation body of a do. A do without one loads the zero record. */
  datatype DoDoc = DoDoc(id: nat, doId: nat, text: string)

  const NoDoc: DoDoc := DoDoc(0, 0, "")

  datatype Template = Template(
    id: nat,
    name: string,
    content: string,
    deleted: bool,
    createdAt: Time,
    updatedAt: Time)

  /** A fresh do as a command builds it before `Create`: every flag false,
      no completion time, no id yet. */
  function NewDo(description: string, doType: DoType): Do {
    Do(0, 0, None, false, description, doType, "", false, "", false, false, false)
  }

  // ---------------------------------------------------------------- tables

  datatype Table<T> = Table(rows: map<nat, T>, lastId: nat)

  /** Every key was issued by the sequence: non-zero and at most `lastId`. */
  predicate TableValid<T>(t: Table<T>) {
    forall k :: k in t.rows ==> 1 <= k <= t.lastId
  }

  /** The key the next insert receives. */
  function NextId<T>(t: Table<T>): (id: nat)
    requires TableValid(t)
    ensures id > 0
    ensures id !in t.rows
    ensures forall k :: k in t.rows ==> k < id
  {
    t.lastId + 1
  }

  function Insert<T>(t: Table<T>, row: T): (r: Table<T>)
    requires TableValid(t)
    ensures TableValid(r)
    ensures r.rows == t.rows[NextId(t) := row]
  {
    Table(t.rows[NextId(t) := row], NextId(t))
  }

  /** The keys present among 1..k, ascending. */
  function KeysUpTo<T>(rows: map<nat, T>, k: nat): (r: seq<nat>)
    ensures forall i :: 0 <= i < |r| ==> 1 <= r[i] <= k && r[i] in rows
    ensures forall i, j :: 0 <= i < j < |r| ==> r[i] < r[j]
    ensures forall id :: 1 <= id <= k && id in rows ==> id in r
  {
    if k == 0 then []
    else KeysUpTo(rows, k - 1) + (if k in rows then [k] else [])
  }

  /** A table scan in primary-key order. */
  function Keys<T>(t: Table<T>): (r: seq<nat>)
    requires TableValid(t)
    ensures forall i :: 0 <= i < |r| ==> r[i] in t.rows
    ensures forall i, j :: 0 <= i < j < |r| ==> r[i] < r[j]
    ensures forall id :: id in t.rows ==> id in r
  {
    KeysUpTo(t.rows, t.lastId)
  }

  function Scan<T>(t: Table<T>): (r: seq<T>)
    requires TableValid(t)
    ensures |r| == |Keys(t)|
    ensures forall i :: 0 <= i < |r| ==> r[i] == t.rows[Keys(t)[i]]
  {
    var ks := Keys(t);
    seq(|ks|, i requires 0 <= i < |ks| => t.rows[ks[i]])
  }

  /** A scan returns each row once: as many rows as the table holds. */
  lemma ScanLength<T>(t: Table<T>)
    requires TableValid(t)
    ensures |Scan(t)| == |t.rows|
  {
    var ks := Keys(t);
    IncreasingCard(ks);
    assert (set i | 0 <= i < |ks| :: ks[i]) == t.rows.Keys;
  }

  /** A scan holds exactly the table's rows. */
  lemma ScanMembers<T>(t: Table<T>)
    requires TableValid(t)
    ensures forall x :: x in Scan(t) <==> x in t.rows.Values
  {
    var rows := Scan(t);
    forall x | x in t.rows.Values ensures x in rows {
      var k :| k in t.rows && t.rows[k] == x;
      var i :| 0 <= i < |Keys(t)| && Keys(t)[i] == k;
      assert rows[i] == x;
    }
  }

  lemma {:induction false} IncreasingCard(ks: seq<nat>)
    requires forall i, j :: 0 <= i < j < |ks| ==> ks[i] < ks[j]
    ensures |set i | 0 <= i < |ks| :: ks[i]| == |ks|
  {
    if |ks| > 0 {
      var rest := ks[1..];
      forall i, j | 0 <= i < j < |rest| ensures rest[i] < rest[j] {
        assert rest[i] == ks[i + 1] && rest[j] == ks[j + 1];
      }
      IncreasingCard(rest);
      var tail := set i | 0 <= i < |rest| :: rest[i];
      KeySetSplit(ks);
      assert ks[0] !in tail by {
        forall i | 0 <= i < |rest| ensures rest[i] != ks[0] {
          assert rest[i] == ks[i + 1];
        }
      }
    }
  }

  lemma KeySetSplit(ks: seq<nat>)
    requires |ks| > 0
    ensures (set i | 0 <= i < |ks| :: ks[i]) == {ks[0]} + (set i | 0 <= i < |ks[1..]| :: ks[1..][i])
  {
    var rest := ks[1..];
    var whole := set i | 0 <= i < |ks| :: ks[i];
    var tail := set i | 0 <= i < |rest| :: rest[i];
    forall x | x in whole ensures x in {ks[0]} + tail {
      var i :| 0 <= i < |ks| && ks[i] == x;
      if i > 0 { assert rest[i - 1] == x; }
    }
    forall x | x in tail ensures x in whole {
      var i :| 0 <= i < |rest| && rest[i] == x;
      assert ks[i + 1] == x;
    }
  }

  /** `First` with a condition: the matching row with the smallest key. */
  function FirstWhere<T>(t: Table<T>, p: T -> bool): (r: Option<nat>)
    requires TableValid(t)
    ensures r.Some? ==> r.value in t.rows && p(t.rows[r.value])
    ensures r.Some? ==> forall k :: k in t.rows && k < r.value ==> !p(t.rows[k])
    ensures r.None? ==> forall k :: k in t.rows ==> !p(t.rows[k])
  {
    FirstIn(t.rows, Keys(t), p)
  }

  function FirstIn<T>(rows: map<nat, T>, ks: seq<nat>, p: T -> bool): (r: Option<nat>)
    requires forall i :: 0 <= i < |ks| ==> ks[i] in rows
    requires forall i, j :: 0 <= i < j < |ks| ==> ks[i] < ks[j]
    ensures r.Some? ==> r.value in ks && p(rows[r.value])
    ensures r.Some? ==> forall k :: k in ks && k < r.value ==> !p(rows[k])
    ensures r.None? ==> forall k :: k in ks ==> !p(rows[k])
  {
    if |ks| == 0 then None
    else if p(rows[ks[0]]) then Some(ks[0])
    else FirstIn(rows, ks[1..], p)
  }

  // ---------------------------------------------------------------- store

  datatype Store = Store(
    dos: Table<Do>,
    tags: Table<Tag>,
    links: seq<DoTag>,
    docs: Table<DoDoc>,
    templates: Table<Template>)

  const EmptyStore: Store :=
    Store(Table(map[], 0), Table(map[], 0), [], Table(map[], 0), Table(map[], 0))

  /** The constraints the schema enforces: keys issued by the sequences, each
      row holding its own key, and tag and template names unique. */
  ghost predicate Valid(s: Store) {
    && TableValid(s.dos) && TableValid(s.tags) && TableValid(s.docs) && TableValid(s.templates)
    && (forall k :: k in s.dos.rows ==> s.dos.rows[k].id == k)
    && (forall k :: k in s.tags.rows ==> s.tags.rows[k].id == k)
    && (forall k :: k in s.docs.rows ==> s.docs.rows[k].id == k)
    && (forall k :: k in s.templates.rows ==> s.templates.rows[k].id == k)
    && UniqueTagNames(s.tags.rows)
    && UniqueTemplateNames(s.templates.rows)
  }

  /** Template names are unique over every row, soft-deleted ones included. */
  ghost predicate UniqueTemplateNames(rows: map<nat, Template>) {
    forall a, b :: a in rows && b in rows && rows[a].name == rows[b].name ==> a == b
  }

  ghost predicate UniqueTagNames(rows: map<nat, Tag>) {
    forall a, b :: a in rows && b in rows && rows[a].name == rows[b].name ==> a == b
  }

  /** A completed do carries its completion time. */
  ghost predicate CompletionConsistent(s: Store) {
    forall k :: k in s.dos.rows && s.dos.rows[k].completed ==> s.dos.rows[k].completedAt.Some?
  }

  /** Each do has at most one doc: `doc` creates one only when the do has
      none, and no command deletes docs. */
  ghost predicate OneDocPerDo(s: Store) {
    forall a, b :: a in s.docs.rows && b in s.docs.rows && s.docs.rows[a].doId == s.docs.rows[b].doId ==> a == b
  }

  /** Which rows a lookup sees: the deletion filter of the WHERE clause. */
  datatype Scope = LiveOnly | DeletedOnly | AnyRow

  predicate InScope(d: Do, scope: Scope) {
    match scope
    case LiveOnly => !d.deleted
    case DeletedOnly => d.deleted
    case AnyRow => true
  }

  /** `First(&do, id)` under a deletion filter. */
  function FetchDo(s: Store, id: nat, scope: Scope): (r: Option<Do>)
    ensures r.Some? <==> id in s.dos.rows && InScope(s.dos.rows[id], scope)
    ensures r.Some? ==> r.value == s.dos.rows[id]
  {
    if id in s.dos.rows && InScope(s.dos.rows[id], scope) then Some(s.dos.rows[id]) else None
  }

  /** `Create(&do)`: the row gets the next key, `CreatedAt` falls back to the
      current time and `Priority` to its column default when left zero. */
  function CreateDo(s: Store, d: Do, now: Time): (r: (Store, Do))
    requires Valid(s)
    ensures Valid(r.0)
    ensures r.1.id > 0 && r.1.id !in s.dos.rows
    ensures r.0.dos.rows == s.dos.rows[r.1.id := r.1]
    ensures r.0.tags == s.tags && r.0.links == s.links && r.0.docs == s.docs
    ensures r.0.templates == s.templates
    ensures r.1.createdAt == if d.createdAt == 0 then now else d.createdAt
    ensures r.1.priority == if d.priority == "" then Medium else d.priority
    ensures r.1 == d.(id := r.1.id, createdAt := r.1.createdAt, priority := r.1.priority)
  {
    var id := NextId(s.dos);
    var row := d.(id := id,
                  createdAt := if d.createdAt == 0 then now else d.createdAt,
                  priority := if d.priority == "" then Medium else d.priority);
    InsertDoValid(s, row);
    (s.(dos := Insert(s.dos, row)), row)
  }

  lemma InsertDoValid(s: Store, row: Do)
    requires Valid(s) && row.id == NextId(s.dos)
    ensures Valid(s.(dos := Insert(s.dos, row)))
  {
  }

  /** `Save(&do)` of a fetched row: every column is overwritten. */
  function SaveDo(s: Store, d: Do): (r: Store)
    requires Valid(s) && d.id in s.dos.rows
    ensures Valid(r)
    ensures r.dos.rows.Keys == s.dos.rows.Keys
    ensures r.dos.rows[d.id] == d
    ensures forall k :: k in s.dos.rows && k != d.id ==> r.dos.rows[k] == s.dos.rows[k]
    ensures r.tags == s.tags && r.links == s.links && r.docs == s.docs
    ensures r.templates == s.templates
  {
    s.(dos := s.dos.(rows := s.dos.rows[d.id := d]))
  }

  /** Saving and fetching back returns exactly the saved row. */
  lemma SaveThenFetch(s: Store, d: Do)
    requires Valid(s) && d.id in s.dos.rows
    ensures FetchDo(SaveDo(s, d), d.id, AnyRow) == Some(d)
    ensures d.deleted ==> FetchDo(SaveDo(s, d), d.id, LiveOnly) == None
  {
  }

  // ---------------------------------------------------------------- tags

  datatype CreateError = DuplicateName

  datatype Created<T> = Created(store: Store, row: T) | Failed(error: CreateError)

  function TagByName(s: Store, name: string): (r: Option<Tag>)
    requires Valid(s)
    ensures r.Some? ==> r.value.id in s.tags.rows && s.tags.rows[r.value.id] == r.value
    ensures r.Some? ==> r.value.name == name
    ensures r.None? <==> forall k :: k in s.tags.rows ==> s.tags.rows[k].name != name
  {
    match FirstWhere(s.tags, (t: Tag) => t.name == name)
    case Some(k) => Some(s.tags.rows[k])
    case None => None
  }

  /** `Create(&tag)`: rejected by the unique index on `name`, otherwise the
      tag gets the next key. */
  function CreateTag(s: Store, name: string): (r: Created<Tag>)
    requires Valid(s)
    ensures r.Failed? <==> exists k :: k in s.tags.rows && s.tags.rows[k].name == name
    ensures r.Created? ==> Valid(r.store)
    ensures r.Created? ==> r.row.id > 0 && r.row.id !in s.tags.rows && r.row.name == name
    ensures r.Created? ==> r.store.tags.rows == s.tags.rows[r.row.id := r.row]
    ensures r.Created? ==> r.store.dos == s.dos && r.store.links == s.links
    ensures r.Created? ==> r.store.docs == s.docs && r.store.templates == s.templates
  {
    if TagByName(s, name).Some? then Failed(DuplicateName)
    else
      var row := Tag(NextId(s.tags), name);
      Created(s.(tags := Insert(s.tags, row)), row)
  }

  /** `Save(&tag)`: the UPDATE fails on the unique index when another tag
      already has the name, and the store stays as it was. */
  function SaveTag(s: Store, t: Tag): (r: Store)
    requires Valid(s) && t.id in s.tags.rows
    ensures Valid(r)
    ensures r.dos == s.dos && r.links == s.links && r.docs == s.docs
    ensures r.templates == s.templates
    ensures r.tags.rows.Keys == s.tags.rows.Keys
    ensures (exists k :: k in s.tags.rows && k != t.id && s.tags.rows[k].name == t.name)
            ==> r == s
    ensures (forall k :: k in s.tags.rows && k != t.id ==> s.tags.rows[k].name != t.name)
            ==> r.tags.rows == s.tags.rows[t.id := t]
  {
    match FirstWhere(s.tags, (u: Tag) => u.name == t.name && u.id != t.id)
    case Some(_) => s
    case None => s.(tags := s.tags.(rows := s.tags.rows[t.id := t]))
  }

  /** How many join rows link `doId` to `tagId`; the join table has neither a
      key nor a unique index, so the same pair can be linked more than once. */
  function LinksBetween(links: seq<DoTag>, doId: nat, tagId: nat): nat {
    multiset(links)[DoTag(doId, tagId)]
  }

  /** `x` repeated `n` times. */
  function Copies<T(!new)>(x: T, n: nat): (r: seq<T>)
    ensures |r| == n
    ensures forall k :: 0 <= k < n ==> r[k] == x
    ensures forall y :: multiset(r)[y] == if y == x then n else 0
  {
    if n == 0 then [] else [x] + Copies(x, n - 1)
  }

  /** The tags `Preload("Tags")` loads for a do. The preload reads the join
      rows, then the tags whose keys they name, and appends each loaded tag
      once per join row that names it; the tag query has no ORDER BY, so the
      tags come in key order. Links to a missing tag load nothing. */
  function TagsOf(s: Store, doId: nat): (r: seq<Tag>)
    requires Valid(s)
    ensures StoredIn(s.tags.rows, r) && KeyOrdered(r)
    ensures forall t :: multiset(r)[t] == (
                   if t.id in s.tags.rows && s.tags.rows[t.id] == t then LinksBetween(s.links, doId, t.id) else 0)
  {
    TagsIn(s.tags.rows, Keys(s.tags), s.links, doId)
  }

  function TagsIn(tags: map<nat, Tag>, ks: seq<nat>, links: seq<DoTag>, doId: nat): (r: seq<Tag>)
    requires forall i :: 0 <= i < |ks| ==> ks[i] in tags && tags[ks[i]].id == ks[i]
    requires forall i, j :: 0 <= i < j < |ks| ==> ks[i] < ks[j]
    ensures forall i :: 0 <= i < |r| ==> r[i].id in ks && tags[r[i].id] == r[i]
    ensures forall i, j :: 0 <= i < j < |r| ==> r[i].id <= r[j].id
    ensures forall t :: multiset(r)[t] == (
                   if t.id in ks && tags[t.id] == t then LinksBetween(links, doId, t.id) else 0)
  {
    if |ks| == 0 then []
    else
      var head := Copies(tags[ks[0]], LinksBetween(links, doId, ks[0]));
      var rest := TagsIn(tags, ks[1..], links, doId);
      TagsInStep(tags, ks, links, doId, head, rest);
      head + rest
  }

  lemma TagsInStep(tags: map<nat, Tag>, ks: seq<nat>, links: seq<DoTag>, doId: nat, head: seq<Tag>, rest: seq<Tag>)
    requires forall i :: 0 <= i < |ks| ==> ks[i] in tags && tags[ks[i]].id == ks[i]
    requires forall i, j :: 0 <= i < j < |ks| ==> ks[i] < ks[j]
    requires |ks| > 0 && head == Copies(tags[ks[0]], LinksBetween(links, doId, ks[0]))
    requires forall i :: 0 <= i < |rest| ==> rest[i].id in ks[1..] && tags[rest[i].id] == rest[i]
    requires forall i, j :: 0 <= i < j < |rest| ==> rest[i].id <= rest[j].id
    requires forall t :: multiset(rest)[t] == (
                   if t.id in ks[1..] && tags[t.id] == t then LinksBetween(links, doId, t.id) else 0)
    ensures forall i :: 0 <= i < |head + rest| ==> (head + rest)[i].id in ks && tags[(head + rest)[i].id] == (head + rest)[i]
    ensures forall i, j :: 0 <= i < j < |head + rest| ==> (head + rest)[i].id <= (head + rest)[j].id
    ensures forall t :: multiset(head + rest)[t] == (
                   if t.id in ks && tags[t.id] == t then LinksBetween(links, doId, t.id) else 0)
  {
    TagsInStepOrder(tags, ks, head, rest);
    TagsInStepCount(tags, ks, links, doId, head, rest);
  }

  lemma TagsInStepOrder(tags: map<nat, Tag>, ks: seq<nat>, head: seq<Tag>, rest: seq<Tag>)
    requires forall i :: 0 <= i < |ks| ==> ks[i] in tags && tags[ks[i]].id == ks[i]
    requires forall i, j :: 0 <= i < j < |ks| ==> ks[i] < ks[j]
    requires |ks| > 0 && forall i :: 0 <= i < |head| ==> head[i] == tags[ks[0]]
    requires forall i :: 0 <= i < |rest| ==> rest[i].id in ks[1..] && tags[rest[i].id] == rest[i]
    requires forall i, j :: 0 <= i < j < |rest| ==> rest[i].id <= rest[j].id
    ensures forall i :: 0 <= i < |head + rest| ==> (head + rest)[i].id in ks && tags[(head + rest)[i].id] == (head + rest)[i]
    ensures forall i, j :: 0 <= i < j < |head + rest| ==> (head + rest)[i].id <= (head + rest)[j].id
  {
    var k := ks[0];
    var r := head + rest;
    TailKeys(ks);
    forall i | 0 <= i < |r| ensures r[i].id in ks && tags[r[i].id] == r[i] {
      if i >= |head| {
        assert r[i] == rest[i - |head|];
      } else {
        assert r[i] == tags[k];
      }
    }
    forall i, j | 0 <= i < j < |r| ensures r[i].id <= r[j].id {
      if j < |head| {
        assert r[i] == tags[k] && r[j] == tags[k];
      } else if i < |head| {
        assert r[i] == tags[k] && r[j] == rest[j - |head|];
      } else {
        assert r[i] == rest[i - |head|] && r[j] == rest[j - |head|];
      }
    }
  }

  /** In an increasing key list, every key after the first is larger. */
  lemma TailKeys(ks: seq<nat>)
    requires |ks| > 0 && forall i, j :: 0 <= i < j < |ks| ==> ks[i] < ks[j]
    ensures forall x :: x in ks[1..] ==> x in ks && x > ks[0]
  {
    forall x | x in ks[1..] ensures x in ks && x > ks[0] {
      var j :| 0 <= j < |ks[1..]| && ks[1..][j] == x;
      assert ks[j + 1] == x;
    }
  }

  lemma TagsInStepCount(tags: map<nat, Tag>, ks: seq<nat>, links: seq<DoTag>, doId: nat, head: seq<Tag>, rest: seq<Tag>)
    requires forall i :: 0 <= i < |ks| ==> ks[i] in tags && tags[ks[i]].id == ks[i]
    requires forall i, j :: 0 <= i < j < |ks| ==> ks[i] < ks[j]
    requires |ks| > 0 && head == Copies(tags[ks[0]], LinksBetween(links, doId, ks[0]))
    requires forall t :: multiset(rest)[t] == (
                   if t.id in ks[1..] && tags[t.id] == t then LinksBetween(links, doId, t.id) else 0)
    ensures forall t :: multiset(head + rest)[t] == (
                   if t.id in ks && tags[t.id] == t then LinksBetween(links, doId, t.id) else 0)
  {
    var k := ks[0];
    TailKeys(ks);
    assert ks == [k] + ks[1..];
    forall t ensures multiset(head + rest)[t] == (
                   if t.id in ks && tags[t.id] == t then LinksBetween(links, doId, t.id) else 0) {
      assert multiset(head + rest)[t] == multiset(head)[t] + multiset(rest)[t];
      assert t.id in ks <==> t.id == k || t.id in ks[1..];
    }
  }

  /** Tags listed in key order; equal keys may repeat. */
  predicate KeyOrdered(r: seq<Tag>) {
    forall i, j :: 0 <= i < j < |r| ==> r[i].id <= r[j].id
  }

  /** Every listed tag is the stored row under its key. */
  predicate StoredIn(tags: map<nat, Tag>, r: seq<Tag>) {
    forall i :: 0 <= i < |r| ==> r[i].id in tags && tags[r[i].id] == r[i]
  }

  /** Two lists of stored tags in key order with the same members are equal. */
  lemma {:induction false} SortedTagsUnique(tags: map<nat, Tag>, a: seq<Tag>, b: seq<Tag>)
    requires KeyOrdered(a) && KeyOrdered(b) && StoredIn(tags, a) && StoredIn(tags, b)
    requires multiset(a) == multiset(b)
    ensures a == b
    decreases |a|
  {
    if |a| == 0 {
      assert |multiset(b)| == 0;
    } else {
      SameFirst(tags, a, b);
      SortedTails(tags, a);
      SortedTails(tags, b);
      SortedTagsUnique(tags, a[1..], b[1..]);
      assert a == [a[0]] + a[1..] && b == [b[0]] + b[1..];
    }
  }

  lemma SameFirst(tags: map<nat, Tag>, a: seq<Tag>, b: seq<Tag>)
    requires |a| > 0
    requires KeyOrdered(a) && KeyOrdered(b) && StoredIn(tags, a) && StoredIn(tags, b)
    requires multiset(a) == multiset(b)
    ensures |b| > 0 && a[0] == b[0]
    ensures multiset(a[1..]) == multiset(b[1..])
  {
    assert a[0] in multiset(b);
    assert b[0] in multiset(a);
    var i :| 0 <= i < |a| && a[i] == b[0];
    var j :| 0 <= j < |b| && b[j] == a[0];
    assert a[0].id <= a[i].id && b[0].id <= b[j].id;
    assert a[0] == tags[a[0].id] && b[0] == tags[b[0].id];
    MultisetTail(a, b);
  }

  lemma MultisetTail<T>(a: seq<T>, b: seq<T>)
    requires |a| > 0 && |b| > 0 && a[0] == b[0] && multiset(a) == multiset(b)
    ensures multiset(a[1..]) == multiset(b[1..])
  {
    assert a == [a[0]] + a[1..] && b == [b[0]] + b[1..];
    assert multiset(a[1..]) == multiset(a) - multiset{a[0]};
    assert multiset(b[1..]) == multiset(b) - multiset{b[0]};
  }

  lemma SortedTails(tags: map<nat, Tag>, a: seq<Tag>)
    requires |a| > 0 && KeyOrdered(a) && StoredIn(tags, a)
    ensures KeyOrdered(a[1..]) && StoredIn(tags, a[1..])
  {
    var a' := a[1..];
    forall x | 0 <= x < |a'| ensures a'[x].id in tags && tags[a'[x].id] == a'[x] {
      assert a'[x] == a[x + 1];
    }
    forall x, y | 0 <= x < y < |a'| ensures a'[x].id <= a'[y].id {
      assert a'[x] == a[x + 1] && a'[y] == a[y + 1];
    }
  }

  /** A stored tag whose key is at least every listed key goes at the end. */
  lemma AppendInOrder(tags: map<nat, Tag>, before: seq<Tag>, after: seq<Tag>, t: Tag)
    requires KeyOrdered(before) && KeyOrdered(after) && StoredIn(tags, before) && StoredIn(tags, after)
    requires t.id in tags && tags[t.id] == t
    requires forall i :: 0 <= i < |before| ==> before[i].id <= t.id
    requires multiset(after) == multiset(before) + multiset{t}
    ensures after == before + [t]
  {
    var r := before + [t];
    assert multiset(r) == multiset(after);
    forall i, j | 0 <= i < j < |r| ensures r[i].id <= r[j].id {
      if j < |before| {
        assert r[i] == before[i] && r[j] == before[j];
      } else {
        assert r[i] == before[i] && r[j] == t;
      }
    }
    forall i | 0 <= i < |r| ensures r[i].id in tags && tags[r[i].id] == r[i] {
      if i < |before| {
        assert r[i] == before[i];
      }
    }
    SortedTagsUnique(tags, r, after);
  }

  /** The tag list is determined by its two properties: key order, and one
      copy of each stored tag per link. */
  lemma TagsOfUnique(s: Store, doId: nat, r: seq<Tag>)
    requires Valid(s) && StoredIn(s.tags.rows, r) && KeyOrdered(r)
    requires forall t :: multiset(r)[t] == (
                   if t.id in s.tags.rows && s.tags.rows[t.id] == t then LinksBetween(s.links, doId, t.id) else 0)
    ensures r == TagsOf(s, doId)
  {
    var q := TagsOf(s, doId);
    assert multiset(r) == multiset(q);
    SortedTagsUnique(s.tags.rows, r, q);
  }

  /** A do linked to a stored tag lists a tag first whose key is no larger. */
  lemma FirstTagLowestKey(s: Store, doId: nat, t: Tag)
    requires Valid(s) && t.id in s.tags.rows && s.tags.rows[t.id] == t
    requires DoTag(doId, t.id) in s.links
    ensures |TagsOf(s, doId)| > 0 && TagsOf(s, doId)[0].id <= t.id
  {
    var r := TagsOf(s, doId);
    assert multiset(r)[t] > 0;
    assert t in r;
  }

  /** Links of other dos, deleted or kept, do not change a do's tags. */
  function Without(links: seq<DoTag>, doId: nat): (r: seq<DoTag>)
    ensures forall i :: 0 <= i < |r| ==> r[i].doId != doId
    ensures forall l :: multiset(r)[l] == if l.doId == doId then 0 else multiset(links)[l]
  {
    if |links| == 0 then []
    else
      assert links == [links[0]] + links[1..];
      (if links[0].doId == doId then [] else [links[0]]) + Without(links[1..], doId)
  }

  /** `Where("do_id = ?", id).Delete(&DoTag{})`. */
  function DeleteLinks(s: Store, doId: nat): (r: Store)
    ensures r == s.(links := Without(s.links, doId))
    ensures Valid(s) ==> Valid(r)
  {
    s.(links := Without(s.links, doId))
  }

  /** After the delete the do has no tags, and every other do keeps its own. */
  lemma DeleteLinksEffect(s: Store, doId: nat)
    requires Valid(s)
    ensures TagsOf(DeleteLinks(s, doId), doId) == []
    ensures forall other :: other != doId ==> TagsOf(DeleteLinks(s, doId), other) == TagsOf(s, other)
  {
    var s' := DeleteLinks(s, doId);
    assert multiset(TagsOf(s', doId)) == multiset{};
    forall other | other != doId
      ensures TagsOf(s', other) == TagsOf(s, other)
    {
      TagsOfSameLinks(s, s', other);
    }
  }

  /** `Create(&doTag)`: the join table has no key and no unique index. */
  function AddLink(s: Store, doId: nat, tagId: nat): (r: Store)
    ensures r.links == s.links + [DoTag(doId, tagId)]
    ensures r.dos == s.dos && r.tags == s.tags && r.docs == s.docs && r.templates == s.templates
    ensures Valid(s) ==> Valid(r)
  {
    s.(links := s.links + [DoTag(doId, tagId)])
  }

  /** Two stores with the same tags and the same links for a do list the
      same tags for it. */
  lemma TagsOfSameLinks(s: Store, s': Store, doId: nat)
    requires Valid(s) && Valid(s') && s'.tags == s.tags
    requires forall k :: LinksBetween(s'.links, doId, k) == LinksBetween(s.links, doId, k)
    ensures TagsOf(s', doId) == TagsOf(s, doId)
  {
    TagsOfUnique(s', doId, TagsOf(s, doId));
  }

  /** Adding a link adds exactly one copy of that tag to the do's tags. */
  lemma AddLinkTags(s: Store, doId: nat, t: Tag)
    requires Valid(s) && t.id in s.tags.rows && s.tags.rows[t.id] == t
    ensures multiset(TagsOf(AddLink(s, doId, t.id), doId)) == multiset(TagsOf(s, doId)) + multiset{t}
    ensures forall other :: other != doId ==> TagsOf(AddLink(s, doId, t.id), other) == TagsOf(s, other)
  {
    AddLinkCounts(s, doId, t);
    forall other | other != doId
      ensures TagsOf(AddLink(s, doId, t.id), other) == TagsOf(s, other)
    {
      AddLinkOther(s, doId, t.id, other);
    }
  }

  lemma AddLinkCounts(s: Store, doId: nat, t: Tag)
    requires Valid(s) && t.id in s.tags.rows && s.tags.rows[t.id] == t
    ensures multiset(TagsOf(AddLink(s, doId, t.id), doId)) == multiset(TagsOf(s, doId)) + multiset{t}
  {
    var s' := AddLink(s, doId, t.id);
    assert Valid(s');
    var after, before := TagsOf(s', doId), TagsOf(s, doId);
    forall u ensures multiset(after)[u] == multiset(before)[u] + (if u == t then 1 else 0) {
      AddLinkCount(s, doId, t, u);
    }
    MultisetPlusOne(after, before, t);
  }

  lemma MultisetPlusOne(after: seq<Tag>, before: seq<Tag>, t: Tag)
    requires forall u :: multiset(after)[u] == multiset(before)[u] + (if u == t then 1 else 0)
    ensures multiset(after) == multiset(before) + multiset{t}
  {
    assert forall u :: multiset(after)[u] == (multiset(before) + multiset{t})[u];
  }

  lemma AddLinkCount(s: Store, doId: nat, t: Tag, u: Tag)
    requires Valid(s) && t.id in s.tags.rows && s.tags.rows[t.id] == t
    ensures multiset(TagsOf(AddLink(s, doId, t.id), doId))[u]
            == multiset(TagsOf(s, doId))[u] + (if u == t then 1 else 0)
  {
    var l := DoTag(doId, t.id);
    assert multiset(AddLink(s, doId, t.id).links) == multiset(s.links) + multiset{l};
    if u.id in s.tags.rows && s.tags.rows[u.id] == u && u != t {
      assert DoTag(doId, u.id) != l;
    }
  }

  lemma AddLinkOther(s: Store, doId: nat, tagId: nat, other: nat)
    requires Valid(s) && other != doId
    ensures TagsOf(AddLink(s, doId, tagId), other) == TagsOf(s, other)
  {
    var s' := AddLink(s, doId, tagId);
    assert multiset(s'.links) == multiset(s.links) + multiset{DoTag(doId, tagId)};
    forall k ensures LinksBetween(s'.links, other, k) == LinksBetween(s.links, other, k) {
      assert DoTag(other, k) != DoTag(doId, tagId);
    }
    TagsOfSameLinks(s, s', other);
  }

  /** The new tag lands at the end of the list exactly when no tag already
      listed has a larger key. */
  lemma AddLinkTagsLast(s: Store, doId: nat, t: Tag)
    requires Valid(s) && t.id in s.tags.rows && s.tags.rows[t.id] == t
    ensures TagsOf(AddLink(s, doId, t.id), doId) == TagsOf(s, doId) + [t]
            <==> forall i :: 0 <= i < |TagsOf(s, doId)| ==> TagsOf(s, doId)[i].id <= t.id
  {
    var before := TagsOf(s, doId);
    if forall i :: 0 <= i < |before| ==> before[i].id <= t.id {
      AppendedLast(s, doId, t);
    } else {
      var i :| 0 <= i < |before| && before[i].id > t.id;
      OutOfOrderAppend(before, t, i);
    }
  }

  lemma OutOfOrderAppend(before: seq<Tag>, t: Tag, i: nat)
    requires i < |before| && before[i].id > t.id
    ensures !KeyOrdered(before + [t])
  {
    var r := before + [t];
    assert r[i] == before[i] && r[|r| - 1] == t;
  }

  lemma AppendedLast(s: Store, doId: nat, t: Tag)
    requires Valid(s) && t.id in s.tags.rows && s.tags.rows[t.id] == t
    requires forall i :: 0 <= i < |TagsOf(s, doId)| ==> TagsOf(s, doId)[i].id <= t.id
    ensures TagsOf(AddLink(s, doId, t.id), doId) == TagsOf(s, doId) + [t]
  {
    AddLinkCounts(s, doId, t);
    AppendInOrder(s.tags.rows, TagsOf(s, doId), TagsOf(AddLink(s, doId, t.id), doId), t);
  }

  // ---------------------------------------------------------------- docs

  /** The doc of a do, or the zero record when it has none. `First` at
      cli.go:511 takes the lowest key; `Preload("Doc")` keeps whichever row
      it loads last. While `OneDocPerDo` holds there is only one doc to
      take, and both name it. */
  function DocOf(s: Store, doId: nat): (r: DoDoc)
    requires Valid(s)
    ensures r.id != 0 ==> r.id in s.docs.rows && s.docs.rows[r.id] == r && r.doId == doId
    ensures r.id == 0 <==> forall k :: k in s.docs.rows ==> s.docs.rows[k].doId != doId
    ensures r.id != 0 ==> forall k :: k in s.docs.rows && k < r.id ==> s.docs.rows[k].doId != doId
    ensures OneDocPerDo(s) ==> forall k :: k in s.docs.rows && s.docs.rows[k].doId == doId ==> k == r.id
  {
    match FirstWhere(s.docs, (d: DoDoc) => d.doId == doId)
    case Some(k) => s.docs.rows[k]
    case None => NoDoc
  }

  /** Each listed do type has a non-empty label, and no two share one. */
  lemma DoTypeLabelsDistinct()
    ensures forall i :: 0 <= i < |DoTypes| ==> |DoTypes[i]| > 0
    ensures forall i, j :: 0 <= i < j < |DoTypes| ==> DoTypes[i] != DoTypes[j]
  {
  }
}
