/**
 * The listing rule of loadSaves (Main.java lines 286-290): of the entries of
 * the save folder only the directories are kept (`listFiles` with the filter
 * `File::isDirectory`), and they are sorted by `Arrays.sort` with
 * `Comparator.comparingLong(File::lastModified)`, a stable sort ascending by
 * modification time.
 */
module SaveListing {

  /** One entry of the save folder as `listFiles` reports it. */
  datatype Entry = Entry(name: string, isDirectory: bool, lastModified: int)

  /** The entries kept by the directory filter, in listing order. */
  function Directories(entries: seq<Entry>): (r: seq<Entry>)
    ensures forall e | e in r :: e.isDirectory
    ensures forall e :: multiset(r)[e] == if e.isDirectory then multiset(entries)[e] else 0
  {
    if entries == [] then []
    else
      assert entries == [entries[0]] + entries[1..];
      (if entries[0].isDirectory then [entries[0]] else []) + Directories(entries[1..])
  }

  /** Ascending by modification time. */
  ghost predicate Sorted(s: seq<Entry>) {
    forall i, j | 0 <= i < j < |s| :: s[i].lastModified <= s[j].lastModified
  }

  /** The entries of `s` modified at time `time`, in their order in `s`. */
  function WithTime(s: seq<Entry>, time: int): seq<Entry> {
    if s == [] then []
    else (if s[0].lastModified == time then [s[0]] else []) + WithTime(s[1..], time)
  }

  /**
   * `x` inserted into the sorted `s` after every entry that is not later
   * than it.
   */
  function Insert(x: Entry, s: seq<Entry>): (r: seq<Entry>)
    requires Sorted(s)
    ensures Sorted(r)
    ensures multiset(r) == multiset(s) + multiset{x}
    ensures r != [] && (r[0] == x || (s != [] && r[0] == s[0]))
  {
    if s == [] || x.lastModified < s[0].lastModified then [x] + s
    else
      var rest := Insert(x, s[1..]);
      assert s == [s[0]] + s[1..];
      [s[0]] + rest
  }

  /** The stable sort: each entry in turn is inserted behind the earlier ones it ties with. */
  function SortByTime(s: seq<Entry>): (r: seq<Entry>)
    ensures Sorted(r)
    ensures multiset(r) == multiset(s)
  {
    if s == [] then []
    else
      assert s == s[..|s| - 1] + [s[|s| - 1]];
      Insert(s[|s| - 1], SortByTime(s[..|s| - 1]))
  }

  /** The saves loadSaves shows, in the order of their buttons. */
  function LoadSaves(entries: seq<Entry>): seq<Entry> {
    SortByTime(Directories(entries))
  }

  lemma {:induction false} WithTimeAppend(a: seq<Entry>, b: seq<Entry>, time: int)
    ensures WithTime(a + b, time) == WithTime(a, time) + WithTime(b, time)
  {
    if a != [] {
      assert (a + b)[1..] == a[1..] + b;
      WithTimeAppend(a[1..], b, time);
    } else {
      assert a + b == b;
    }
  }

  lemma {:induction false} WithTimeNone(s: seq<Entry>, time: int)
    requires forall e | e in s :: e.lastModified != time
    ensures WithTime(s, time) == []
  {
    if s != [] {
      WithTimeNone(s[1..], time);
    }
  }

  /** Insertion appends `x` to the entries of its own time and leaves the other times alone. */
  lemma {:induction false} InsertStable(x: Entry, s: seq<Entry>, time: int)
    requires Sorted(s)
    ensures WithTime(Insert(x, s), time) == WithTime(s, time) + (if x.lastModified == time then [x] else [])
  {
    if s == [] {
      assert Insert(x, s) == [x];
    } else if x.lastModified < s[0].lastModified {
      assert Insert(x, s) == [x] + s;
      WithTimeCons(x, s, time);
      if x.lastModified == time {
        WithTimeNone(s, time);
      }
    } else {
      InsertStable(x, s[1..], time);
      InsertStableStep(x, s, time);
    }
  }

  /** The step of that induction where `x` goes behind the first entry. */
  lemma InsertStableStep(x: Entry, s: seq<Entry>, time: int)
    requires Sorted(s) && s != [] && s[0].lastModified <= x.lastModified
    requires WithTime(Insert(x, s[1..]), time) == WithTime(s[1..], time) + (if x.lastModified == time then [x] else [])
    ensures WithTime(Insert(x, s), time) == WithTime(s, time) + (if x.lastModified == time then [x] else [])
  {
    var rest := Insert(x, s[1..]);
    assert Insert(x, s) == [s[0]] + rest;
    assert s == [s[0]] + s[1..];
    WithTimeCons(s[0], rest, time);
    WithTimeCons(s[0], s[1..], time);
    var head := if s[0].lastModified == time then [s[0]] else [];
    var tail := if x.lastModified == time then [x] else [];
    ConcatAssoc(head, WithTime(s[1..], time), tail);
  }

  lemma ConcatAssoc(a: seq<Entry>, b: seq<Entry>, c: seq<Entry>)
    ensures a + (b + c) == (a + b) + c
  {
    assert forall i | 0 <= i < |a| + |b| + |c| :: (a + (b + c))[i] == ((a + b) + c)[i];
  }

  lemma WithTimeCons(e: Entry, s: seq<Entry>, time: int)
    ensures WithTime([e] + s, time) == (if e.lastModified == time then [e] else []) + WithTime(s, time)
  {
    assert ([e] + s)[1..] == s;
  }

  /** Entries modified at the same time keep their relative order. */
  lemma {:induction false} SortByTimeStable(s: seq<Entry>, time: int)
    ensures WithTime(SortByTime(s), time) == WithTime(s, time)
  {
    if s != [] {
      var init, last := s[..|s| - 1], s[|s| - 1];
      assert s == init + [last];
      SortByTimeStable(init, time);
      InsertStable(last, SortByTime(init), time);
      WithTimeAppend(init, [last], time);
    }
  }

  /**
   * The listing shows exactly the directories of the folder, each as often as
   * it is listed, ascending by modification time, and the directories
   * modified at the same time in the order `listFiles` gave them.
   */
  lemma LoadSavesOrder(entries: seq<Entry>)
    ensures forall e | e in LoadSaves(entries) :: e.isDirectory
    ensures forall e :: multiset(LoadSaves(entries))[e] == if e.isDirectory then multiset(entries)[e] else 0
    ensures Sorted(LoadSaves(entries))
    ensures forall time :: WithTime(LoadSaves(entries), time) == Directories(WithTime(entries, time))
  {
    var dirs := Directories(entries);
    forall e | e in LoadSaves(entries) ensures e.isDirectory {
      assert e in multiset(dirs);
    }
    forall time ensures WithTime(LoadSaves(entries), time) == Directories(WithTime(entries, time)) {
      SortByTimeStable(dirs, time);
      DirectoriesWithTime(entries, time);
    }
  }

  /**
   * The directory filter keeps listing order: the directories of each time
   * are those of the listing's entries of that time, in the same order.
   */
  lemma {:induction false} DirectoriesWithTime(entries: seq<Entry>, time: int)
    ensures WithTime(Directories(entries), time) == Directories(WithTime(entries, time))
  {
    if entries != [] {
      var e, rest := entries[0], entries[1..];
      var head := if e.isDirectory then [e] else [];
      DirectoriesWithTime(rest, time);
      assert Directories(entries) == head + Directories(rest);
      WithTimeAppend(head, Directories(rest), time);
      assert [e][1..] == [];
      if e.lastModified == time {
        assert WithTime(entries, time) == [e] + WithTime(rest, time);
        DirectoriesCons(e, WithTime(rest, time));
      } else {
        assert WithTime(head, time) == [];
        assert WithTime(entries, time) == WithTime(rest, time);
      }
    }
  }

  lemma DirectoriesCons(e: Entry, s: seq<Entry>)
    ensures Directories([e] + s) == (if e.isDirectory then [e] else []) + Directories(s)
  {
    assert ([e] + s)[1..] == s;
  }

  lemma {:induction false} WithTimeMembers(s: seq<Entry>, time: int)
    ensures forall e | e in WithTime(s, time) :: e in s && e.lastModified == time
    ensures forall e | e in s && e.lastModified == time :: e in WithTime(s, time)
  {
    if s != [] {
      WithTimeMembers(s[1..], time);
      assert s == [s[0]] + s[1..];
    }
  }

  /**
   * Sorting ascending and keeping ties in order leave no choice: two sorted
   * sequences with the same entries of each time, in the same order, are
   * equal. So the properties of LoadSavesOrder determine the listing.
   */
  lemma {:induction false} SortedUnique(a: seq<Entry>, b: seq<Entry>)
    requires Sorted(a) && Sorted(b)
    requires forall time :: WithTime(a, time) == WithTime(b, time)
    ensures a == b
  {
    if a != [] {
      WithTimeMembers(a, a[0].lastModified);
      WithTimeMembers(b, a[0].lastModified);
    }
    if b != [] {
      WithTimeMembers(b, b[0].lastModified);
      WithTimeMembers(a, b[0].lastModified);
    }
    if a != [] && b != [] {
      assert a[0] in WithTime(b, a[0].lastModified);
      assert b[0] in WithTime(a, b[0].lastModified);
      var m := a[0].lastModified;
      assert b[0].lastModified == m;
      assert WithTime(a, m) == [a[0]] + WithTime(a[1..], m);
      assert WithTime(b, m) == [b[0]] + WithTime(b[1..], m);
      forall time ensures WithTime(a[1..], time) == WithTime(b[1..], time) {
        if time == m {
          assert WithTime(a, m)[1..] == WithTime(a[1..], m);
          assert WithTime(b, m)[1..] == WithTime(b[1..], m);
        } else {
          assert WithTime(a, time) == WithTime(a[1..], time);
          assert WithTime(b, time) == WithTime(b[1..], time);
        }
      }
      assert a[0] == WithTime(a, m)[0] == WithTime(b, m)[0] == b[0];
      SortedUnique(a[1..], b[1..]);
      assert a == [a[0]] + a[1..] && b == [b[0]] + b[1..];
    }
  }
}
