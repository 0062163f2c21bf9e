/** Task records and the pure list operations behind the browser task manager
    (src/script.js): trimming, the `filter` and `map` passes its mutators use,
    the filter view, the counters and the export bundle. */
module Tasks {

  datatype Option<+T> = None | Some(value: T)

  /** One stored task. Clock readings (the id from `Date.now()` and the ISO
      timestamps) are opaque values supplied by the caller. */
  datatype Task = Task(
    id: int,
    text: string,
    priority: string,
    dueDate: Option<string>,
    completed: bool,
    createdAt: string,
    updatedAt: string)

  /* ---------------------------------------------------------------------
     String.prototype.trim
     --------------------------------------------------------------------- */

  /** The characters `trim` removes: ECMAScript WhiteSpace (tab, vertical tab,
      form feed, no-break space, byte order mark and every space separator)
      and LineTerminator (line feed, carriage return, line and paragraph
      separators). */
  predicate IsJsSpace(c: char) {
    || c == '\t' || c == '\n' || c == '\U{000B}' || c == '\U{000C}' || c == '\r'
    || c == ' ' || c == '\U{00A0}' || c == '\U{1680}'
    || ('\U{2000}' <= c <= '\U{200A}')
    || c == '\U{2028}' || c == '\U{2029}' || c == '\U{202F}' || c == '\U{205F}'
    || c == '\U{3000}' || c == '\U{FEFF}'
  }

  predicate AllSpace(s: string) {
    forall k :: 0 <= k < |s| ==> IsJsSpace(s[k])
  }

  /** Drops the leading white space: the result is the suffix of `s` that
      starts at its first non-space character. */
  function TrimStart(s: string): (r: string)
    ensures |r| <= |s| && r == s[|s| - |r|..]
    ensures forall k :: 0 <= k < |s| - |r| ==> IsJsSpace(s[k])
    ensures r == [] || !IsJsSpace(r[0])
  {
    if s != [] && IsJsSpace(s[0]) then TrimStart(s[1..]) else s
  }

  /** Drops the trailing white space: the result is the prefix of `s` that
      ends at its last non-space character. */
  function TrimEnd(s: string): (r: string)
    ensures |r| <= |s| && r == s[..|r|]
    ensures forall k :: |r| <= k < |s| ==> IsJsSpace(s[k])
    ensures r == [] || !IsJsSpace(r[|r| - 1])
  {
    if s != [] && IsJsSpace(s[|s| - 1]) then TrimEnd(s[..|s| - 1]) else s
  }

  /** `r` is the part of `s` that starts at `i`, with only white space
      before it and after it. */
  predicate Inner(s: string, r: string, i: int) {
    && 0 <= i && i + |r| <= |s|
    && r == s[i..i + |r|]
    && AllSpace(s[..i]) && AllSpace(s[i + |r|..])
  }

  /** `s.trim()`: the result is `s` with only white space removed before and
      after it; it neither starts nor ends with white space, and it is empty
      exactly when `s` is blank. */
  function Trim(s: string): (r: string)
    ensures |r| <= |s|
    ensures exists i :: Inner(s, r, i)
    ensures r == [] || (!IsJsSpace(r[0]) && !IsJsSpace(r[|r| - 1]))
    ensures r == [] <==> AllSpace(s)
  {
    TrimBlank(s);
    InnerOfTrims(s, TrimStart(s), TrimEnd(TrimStart(s)));
    TrimEnd(TrimStart(s))
  }

  /** Dropping white space from the front of `s`, giving `t`, and then from
      the back of `t`, giving `r`, leaves `r` as the inner part of `s`. */
  lemma InnerOfTrims(s: string, t: string, r: string)
    requires |t| <= |s| && t == s[|s| - |t|..]
    requires forall k :: 0 <= k < |s| - |t| ==> IsJsSpace(s[k])
    requires |r| <= |t| && r == t[..|r|]
    requires forall k :: |r| <= k < |t| ==> IsJsSpace(t[k])
    ensures Inner(s, r, |s| - |t|)
  {
    var i := |s| - |t|;
    assert r == s[i..i + |r|];
    var pre, post := s[..i], s[i + |r|..];
    forall k | 0 <= k < |pre| ensures IsJsSpace(pre[k]) {
      assert pre[k] == s[k];
    }
    forall k | 0 <= k < |post| ensures IsJsSpace(post[k]) {
      assert post[k] == t[|r| + k];
    }
  }

  lemma TrimBlank(s: string)
    ensures TrimEnd(TrimStart(s)) == [] <==> AllSpace(s)
  {
    var t := TrimStart(s);
    if TrimEnd(t) == [] {
      assert t == [];
    }
    if AllSpace(s) {
      BlankTrimsToEmpty(s);
    }
  }

  lemma {:induction false} BlankTrimsToEmpty(s: string)
    requires AllSpace(s)
    ensures TrimStart(s) == []
    decreases |s|
  {
    if s != [] {
      assert AllSpace(s[1..]) by {
        forall k | 0 <= k < |s| - 1 ensures IsJsSpace(s[1..][k]) {
          assert s[1..][k] == s[k + 1];
        }
      }
      BlankTrimsToEmpty(s[1..]);
    }
  }

  /** Trimming twice trims nothing more. */
  lemma TrimIdempotent(s: string)
    ensures Trim(Trim(s)) == Trim(s)
  {
    var r := Trim(s);
    assert TrimStart(r) == r;
    assert TrimEnd(r) == r;
  }

  /* ---------------------------------------------------------------------
     Array.prototype.filter and order
     --------------------------------------------------------------------- */

  /** `a` is `b` with some elements left out, the rest in their order. */
  ghost predicate IsSubseq<T>(a: seq<T>, b: seq<T>)
    decreases |b|
  {
    || a == []
    || (b != [] && ((a[0] == b[0] && IsSubseq(a[1..], b[1..])) || IsSubseq(a, b[1..])))
  }

  /** `s.filter(keep)`: exactly the elements `keep` accepts, in their order;
      nothing is dropped when `keep` accepts everything. */
  function Filter<T(==,!new)>(keep: T -> bool, s: seq<T>): (r: seq<T>)
    ensures |r| <= |s|
    ensures forall x :: x in r <==> x in s && keep(x)
    ensures IsSubseq(r, s)
    ensures (forall x :: x in s ==> keep(x)) ==> r == s
    ensures (forall x :: x in s ==> !keep(x)) ==> r == []
  {
    if s == [] then []
    else
      var rest := Filter(keep, s[1..]);
      if keep(s[0]) then [s[0]] + rest else rest
  }

  /** `filter` keeps every accepted element as many times as `s` holds it and
      drops every copy of the others. */
  lemma {:induction false} FilterCounts<T(!new)>(keep: T -> bool, s: seq<T>)
    ensures forall x :: multiset(Filter(keep, s))[x] == if keep(x) then multiset(s)[x] else 0
    decreases |s|
  {
    if s != [] {
      FilterCounts(keep, s[1..]);
      assert s == [s[0]] + s[1..];
    }
  }

  /** Filtering by the same test a second time changes nothing. */
  lemma FilterIdempotent<T(!new)>(keep: T -> bool, s: seq<T>)
    ensures Filter(keep, Filter(keep, s)) == Filter(keep, s)
  {
  }

  /* ---------------------------------------------------------------------
     Array.prototype.map with an id test
     --------------------------------------------------------------------- */

  /** `ts.map(task => task.id === id ? change(task) : task)`: same length,
      every record whose id matches is replaced by its changed copy, every
      other record is kept as it was. */
  function MapMatching(ts: seq<Task>, id: int, change: Task -> Task): (r: seq<Task>)
    ensures |r| == |ts|
    ensures forall k :: 0 <= k < |ts| && ts[k].id == id ==> r[k] == change(ts[k])
    ensures forall k :: 0 <= k < |ts| && ts[k].id != id ==> r[k] == ts[k]
  {
    if ts == [] then []
    else [if ts[0].id == id then change(ts[0]) else ts[0]] + MapMatching(ts[1..], id, change)
  }

  /* ---------------------------------------------------------------------
     The list operations of the task manager
     --------------------------------------------------------------------- */

  /** The record `addTask` builds: the due date is absent when the date field
      was left empty, and a new task is not completed. */
  function NewTask(id: int, text: string, priority: string, dueInput: string, stamp: string): (t: Task)
    ensures t.id == id && t.text == text && t.priority == priority
    ensures t.dueDate.None? <==> dueInput == ""
    ensures t.dueDate.Some? ==> t.dueDate.value == dueInput
    ensures !t.completed && t.createdAt == t.updatedAt == stamp
  {
    Task(id, text, priority, if dueInput == "" then None else Some(dueInput), false, stamp, stamp)
  }

  /** `addTask`: a description that is blank once trimmed changes nothing;
      otherwise the new record with the trimmed text goes first and every old
      record follows in its old order. */
  function AddedTasks(ts: seq<Task>, input: string, priority: string, dueInput: string, now: int, stamp: string): (r: seq<Task>)
    ensures Trim(input) == [] ==> r == ts
    ensures Trim(input) != [] ==>
      && |r| == |ts| + 1
      && r[0] == NewTask(now, Trim(input), priority, dueInput, stamp)
      && r[1..] == ts
  {
    var text := Trim(input);
    if text == [] then ts
    else
      var r := [NewTask(now, text, priority, dueInput, stamp)] + ts;
      assert r[1..] == ts;
      r
  }

  predicate IsCompleted(t: Task) { t.completed }
  predicate IsActive(t: Task) { !t.completed }

  /** `deleteTask`: the list without the records carrying `id`; every other
      record stays, as many times as the list held it. */
  function Without(ts: seq<Task>, id: int): (r: seq<Task>)
    ensures forall t :: t in r ==> t.id != id
    ensures forall t :: t in ts && t.id != id ==> t in r
    ensures forall t :: multiset(r)[t] == if t.id != id then multiset(ts)[t] else 0
    ensures IsSubseq(r, ts)
    ensures (forall t :: t in ts ==> t.id != id) ==> r == ts
  {
    FilterCounts((t: Task) => t.id != id, ts);
    Filter((t: Task) => t.id != id, ts)
  }

  /** `toggleComplete`: flips the flag of every matching record and stamps it. */
  function Toggled(ts: seq<Task>, id: int, stamp: string): (r: seq<Task>)
    ensures |r| == |ts|
    ensures forall k :: 0 <= k < |ts| && ts[k].id == id ==>
      r[k].completed == !ts[k].completed && r[k].updatedAt == stamp &&
      r[k].(completed := ts[k].completed, updatedAt := ts[k].updatedAt) == ts[k]
    ensures forall k :: 0 <= k < |ts| && ts[k].id != id ==> r[k] == ts[k]
  {
    MapMatching(ts, id, (t: Task) => t.(completed := !t.completed, updatedAt := stamp))
  }

  /** `editTask` once the new text is known not to be blank: every matching
      record gets the text and a new stamp, and nothing else changes. */
  function Edited(ts: seq<Task>, id: int, text: string, stamp: string): (r: seq<Task>)
    ensures |r| == |ts|
    ensures forall k :: 0 <= k < |ts| && ts[k].id == id ==>
      r[k].text == text && r[k].updatedAt == stamp &&
      r[k].(text := ts[k].text, updatedAt := ts[k].updatedAt) == ts[k]
    ensures forall k :: 0 <= k < |ts| && ts[k].id != id ==> r[k] == ts[k]
  {
    MapMatching(ts, id, (t: Task) => t.(text := text, updatedAt := stamp))
  }

  /** Records still to do (`filter(task => !task.completed)`), used both by the
      'active' view and by `clearCompleted`. */
  function ActiveTasks(ts: seq<Task>): (r: seq<Task>)
    ensures forall t :: t in r <==> t in ts && !t.completed
    ensures IsSubseq(r, ts)
  {
    Filter(IsActive, ts)
  }

  /** Records done (`filter(task => task.completed)`). */
  function CompletedTasks(ts: seq<Task>): (r: seq<Task>)
    ensures forall t :: t in r <==> t in ts && t.completed
    ensures IsSubseq(r, ts)
  {
    Filter(IsCompleted, ts)
  }

  /** The switch in `loadTasks`: 'active' and 'completed' select by flag, any
      other filter value shows the whole list. */
  function FilterView(ts: seq<Task>, filter: string): (r: seq<Task>)
    ensures IsSubseq(r, ts)
    ensures filter == "active" ==> forall t :: t in r <==> t in ts && !t.completed
    ensures filter == "completed" ==> forall t :: t in r <==> t in ts && t.completed
    ensures filter != "active" && filter != "completed" ==> r == ts
  {
    match filter
    case "active" => ActiveTasks(ts)
    case "completed" => CompletedTasks(ts)
    case _ =>
      assert IsSubseq(ts, ts) by { SubseqRefl(ts); }
      ts
  }

  lemma {:induction false} SubseqRefl<T>(s: seq<T>)
    ensures IsSubseq(s, s)
    decreases |s|
  {
    if s != [] {
      SubseqRefl(s[1..]);
    }
  }

  /** Every record is either active or completed, never both, so the two views
      split the list: their lengths add up to the list's. */
  lemma {:induction false} ViewsPartition(ts: seq<Task>)
    ensures |ActiveTasks(ts)| + |CompletedTasks(ts)| == |ts|
    ensures forall t :: t in ts <==> (t in ActiveTasks(ts) || t in CompletedTasks(ts))
    ensures forall t :: !(t in ActiveTasks(ts) && t in CompletedTasks(ts))
    decreases |ts|
  {
    if ts != [] {
      ViewsPartition(ts[1..]);
    }
  }

  /** The ids shown by the 'active' and 'completed' views together are the ids
      of the whole list. */
  lemma ViewIdsCover(ts: seq<Task>)
    ensures (set t | t in FilterView(ts, "active") :: t.id) + (set t | t in FilterView(ts, "completed") :: t.id)
         == (set t | t in FilterView(ts, "all") :: t.id)
  {
    ViewsPartition(ts);
  }

  /* ---------------------------------------------------------------------
     Counters and export
     --------------------------------------------------------------------- */

  datatype Stats = Stats(total: int, completed: int, pending: int)

  /** `updateStats`: the total, the number completed and the number pending. */
  function StatsOf(ts: seq<Task>): (s: Stats)
    ensures s.total == |ts|
    ensures 0 <= s.completed <= s.total
    ensures s.pending == s.total - s.completed == |ActiveTasks(ts)|
  {
    ViewsPartition(ts);
    Stats(|ts|, |CompletedTasks(ts)|, |ts| - |CompletedTasks(ts)|)
  }

  datatype ExportBundle = ExportBundle(tasks: seq<Task>, exportedAt: string, total: int, completed: int)

  /** The object `exportTasks` serialises: the full list, the export time and
      the same total and completed count the counters show. */
  function ExportOf(ts: seq<Task>, stamp: string): (e: ExportBundle)
    ensures e.tasks == ts && e.exportedAt == stamp
    ensures e.total == StatsOf(ts).total && e.completed == StatsOf(ts).completed
  {
    ExportBundle(ts, stamp, |ts|, |CompletedTasks(ts)|)
  }

  /** Two lists whose records agree position by position on the flag have the
      same number of completed records. */
  lemma {:induction false} CompletedCountByFlags(a: seq<Task>, b: seq<Task>)
    requires |a| == |b|
    requires forall k :: 0 <= k < |a| ==> a[k].completed == b[k].completed
    ensures |CompletedTasks(a)| == |CompletedTasks(b)|
    decreases |a|
  {
    if a != [] {
      CompletedCountByFlags(a[1..], b[1..]);
    }
  }

  /** Toggling the same id twice restores every flag, leaves every field but
      `updatedAt` as it was, and so restores the counters. */
  lemma ToggleTwice(ts: seq<Task>, id: int, s1: string, s2: string)
    ensures |Toggled(Toggled(ts, id, s1), id, s2)| == |ts|
    ensures forall k :: 0 <= k < |ts| ==>
      Toggled(Toggled(ts, id, s1), id, s2)[k].(updatedAt := ts[k].updatedAt) == ts[k]
    ensures StatsOf(Toggled(Toggled(ts, id, s1), id, s2)) == StatsOf(ts)
  {
    var r := Toggled(Toggled(ts, id, s1), id, s2);
    CompletedCountByFlags(r, ts);
  }

  /** A successful add grows the total and the pending count by one and keeps
      the completed count; a refused one changes no counter. */
  lemma AddedCounts(ts: seq<Task>, input: string, priority: string, dueInput: string, now: int, stamp: string)
    ensures var s := StatsOf(ts);
      StatsOf(AddedTasks(ts, input, priority, dueInput, now, stamp))
        == if Trim(input) == [] then s else Stats(s.total + 1, s.completed, s.pending + 1)
  {
    if Trim(input) != [] {
      AddCounts(NewTask(now, Trim(input), priority, dueInput, stamp), ts);
    }
  }

  /** Adding one record that is not completed adds one to the total and to the
      pending count and leaves the completed count alone. */
  lemma {:induction false} AddCounts(t: Task, ts: seq<Task>)
    requires !t.completed
    ensures StatsOf([t] + ts) == Stats(StatsOf(ts).total + 1, StatsOf(ts).completed, StatsOf(ts).pending + 1)
  {
    assert ([t] + ts)[1..] == ts;
  }

  /** Clearing the completed records empties the 'completed' view, keeps the
      pending count and is idempotent. */
  lemma ClearCompletedCounts(ts: seq<Task>)
    ensures StatsOf(ActiveTasks(ts)) == Stats(StatsOf(ts).pending, 0, StatsOf(ts).pending)
    ensures ActiveTasks(ActiveTasks(ts)) == ActiveTasks(ts)
  {
    var r := ActiveTasks(ts);
    FilterIdempotent(IsActive, ts);
    assert CompletedTasks(r) == [];
  }

  /* ---------------------------------------------------------------------
     The list invariant the operations keep
     --------------------------------------------------------------------- */

  predicate UniqueIds(ts: seq<Task>) {
    forall i, j :: 0 <= i < j < |ts| ==> ts[i].id != ts[j].id
  }

  /** The text `addTask` and `editTask` store: not empty, and neither starting
      nor ending with white space, so trimming leaves it as it is. */
  predicate GoodText(text: string) {
    text != [] && !IsJsSpace(text[0]) && !IsJsSpace(text[|text| - 1])
  }

  /** No two records share an id and every text is trimmed and not empty. */
  predicate WellFormed(ts: seq<Task>) {
    UniqueIds(ts) && forall t :: t in ts ==> GoodText(t.text)
  }

  /** Any non-blank input, once trimmed, is a text the list may hold. */
  lemma TrimmedIsGood(input: string)
    requires Trim(input) != []
    ensures GoodText(Trim(input)) && Trim(Trim(input)) == Trim(input)
  {
    TrimIdempotent(input);
  }

  /** A record whose id no other record has may go in front. */
  lemma ConsKeepsUniqueIds(t: Task, ts: seq<Task>)
    requires UniqueIds(ts)
    requires forall u :: u in ts ==> u.id != t.id
    ensures UniqueIds([t] + ts)
  {
    var r := [t] + ts;
    forall i, j | 0 <= i < j < |r| ensures r[i].id != r[j].id {
      assert r[j] == ts[j - 1];
      if i > 0 { assert r[i] == ts[i - 1]; }
    }
  }

  lemma AddKeepsWellFormed(t: Task, ts: seq<Task>)
    requires WellFormed(ts) && GoodText(t.text)
    requires forall u :: u in ts ==> u.id != t.id
    ensures WellFormed([t] + ts)
  {
    ConsKeepsUniqueIds(t, ts);
  }

  /** `addTask` keeps the invariant when the id it draws is new to the list. */
  lemma AddedKeepsWellFormed(ts: seq<Task>, input: string, priority: string, dueInput: string, now: int, stamp: string)
    requires WellFormed(ts)
    requires forall t :: t in ts ==> t.id != now
    ensures WellFormed(AddedTasks(ts, input, priority, dueInput, now, stamp))
  {
    if Trim(input) != [] {
      TrimmedIsGood(input);
      AddKeepsWellFormed(NewTask(now, Trim(input), priority, dueInput, stamp), ts);
    }
  }

  lemma {:induction false} FilterKeepsUniqueIds(keep: Task -> bool, ts: seq<Task>)
    requires UniqueIds(ts)
    ensures UniqueIds(Filter(keep, ts))
    decreases |ts|
  {
    if ts != [] {
      var tail := ts[1..];
      assert UniqueIds(tail) by {
        forall i, j | 0 <= i < j < |tail| ensures tail[i].id != tail[j].id {
          assert tail[i] == ts[i + 1] && tail[j] == ts[j + 1];
        }
      }
      FilterKeepsUniqueIds(keep, tail);
      if keep(ts[0]) {
        var rest := Filter(keep, tail);
        forall u | u in rest ensures u.id != ts[0].id {
          var j :| 0 <= j < |tail| && tail[j] == u;
          assert ts[j + 1] == u;
        }
        ConsKeepsUniqueIds(ts[0], rest);
      }
    }
  }

  lemma FilterKeepsWellFormed(keep: Task -> bool, ts: seq<Task>)
    requires WellFormed(ts)
    ensures WellFormed(Filter(keep, ts))
  {
    FilterKeepsUniqueIds(keep, ts);
  }

  lemma DeleteKeepsWellFormed(ts: seq<Task>, id: int)
    requires WellFormed(ts)
    ensures WellFormed(Without(ts, id))
  {
    FilterKeepsWellFormed((t: Task) => t.id != id, ts);
  }

  lemma ClearKeepsWellFormed(ts: seq<Task>)
    requires WellFormed(ts)
    ensures WellFormed(ActiveTasks(ts))
  {
    FilterKeepsWellFormed(IsActive, ts);
  }

  /** A list that keeps every id in its place, and every text unless it
      replaces it by a good one, keeps the invariant. */
  lemma SamePlacesKeepWellFormed(ts: seq<Task>, r: seq<Task>)
    requires WellFormed(ts) && |r| == |ts|
    requires forall k :: 0 <= k < |ts| ==> r[k].id == ts[k].id
    requires forall k :: 0 <= k < |ts| ==> r[k].text == ts[k].text || GoodText(r[k].text)
    ensures WellFormed(r)
  {
    forall t | t in r ensures GoodText(t.text) {
      var k :| 0 <= k < |r| && r[k] == t;
      assert ts[k] in ts;
    }
  }

  /** Toggling keeps every id in place and every text as it was. */
  lemma ToggleKeepsWellFormed(ts: seq<Task>, id: int, stamp: string)
    requires WellFormed(ts)
    ensures WellFormed(Toggled(ts, id, stamp))
  {
    var r := Toggled(ts, id, stamp);
    forall k | 0 <= k < |ts| ensures r[k].id == ts[k].id && r[k].text == ts[k].text {
      if ts[k].id == id {
        assert r[k].(completed := ts[k].completed, updatedAt := ts[k].updatedAt) == ts[k];
      }
    }
    SamePlacesKeepWellFormed(ts, r);
  }

  /** Editing with a non-blank text keeps every id in place and stores only
      trimmed, non-empty texts. */
  lemma EditKeepsWellFormed(ts: seq<Task>, id: int, input: string, stamp: string)
    requires WellFormed(ts) && Trim(input) != []
    ensures WellFormed(Edited(ts, id, Trim(input), stamp))
  {
    TrimmedIsGood(input);
    var r := Edited(ts, id, Trim(input), stamp);
    forall k | 0 <= k < |ts| ensures r[k].id == ts[k].id && (r[k].text == ts[k].text || GoodText(r[k].text)) {
      if ts[k].id == id {
        assert r[k].(text := ts[k].text, updatedAt := ts[k].updatedAt) == ts[k];
      }
    }
    SamePlacesKeepWellFormed(ts, r);
  }
}
