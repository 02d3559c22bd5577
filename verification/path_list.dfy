/**
  The semicolon-separated list of application paths kept in the script's
  settings, and the two buttons that edit it: "Add path to list" and
  "Clear all paths".

  Entries are strings; `Split` and `Join` follow Python's `str.split(';')`
  and `';'.join(...)`, and `Dedup` follows `OrderedDict.fromkeys`, which
  keeps the first occurrence of every key in insertion order.
 */
module PathList {

  /** The separator between entries of the stored path list. */
  const Sep: char := ';'

  ghost predicate NoDup(xs: seq<string>)
  {
    forall i, j :: 0 <= i < j < |xs| ==> xs[i] != xs[j]
  }

  /** No entry contains the separator, so joining and splitting again gives the entries back. */
  ghost predicate NoSep(xs: seq<string>)
  {
    forall i :: 0 <= i < |xs| ==> Sep !in xs[i]
  }

  /** Python's `s.split(';')`: the pieces between separators, never an empty list. */
  function Split(s: string): (parts: seq<string>)
    ensures |parts| >= 1
    decreases |s|
  {
    if |s| == 0 then [""]
    else
      var rest := Split(s[1..]);
      if s[0] == Sep then [""] + rest
      else [[s[0]] + rest[0]] + rest[1..]
  }

  /** No piece of a split string contains the separator. */
  lemma {:induction false} SplitHasNoSep(s: string)
    ensures NoSep(Split(s))
    decreases |s|
  {
    if |s| > 0 {
      SplitHasNoSep(s[1..]);
      var rest := Split(s[1..]);
      if s[0] != Sep {
        assert Sep !in [s[0]] + rest[0];
        assert forall i :: 1 <= i < |rest| ==> rest[1..][i - 1] == rest[i];
      }
    }
  }

  /**
    Python's `';'.join(parts)`: the entries one after another with a
    separator between neighbours, so the first entry starts the string and
    is followed by a separator when another entry comes after it.
   */
  function Join(parts: seq<string>): (s: string)
    ensures |parts| >= 1 ==> parts[0] <= s
    ensures |parts| >= 2 ==> parts[0] + [Sep] <= s
  {
    if |parts| == 0 then ""
    else if |parts| == 1 then parts[0]
    else parts[0] + [Sep] + Join(parts[1..])
  }

  /** Splitting a string that starts with a separator-free piece `a`. */
  lemma {:induction false} SplitPrefix(a: string, b: string)
    requires Sep !in a
    ensures Split(a + b) == [a + Split(b)[0]] + Split(b)[1..]
    decreases |a|
  {
    if |a| > 0 {
      assert (a + b)[0] == a[0] && (a + b)[1..] == a[1..] + b;
      SplitPrefix(a[1..], b);
      var rest := Split(a[1..] + b);
      assert rest[0] == a[1..] + Split(b)[0];
      assert rest[1..] == Split(b)[1..];
      assert Split(a + b) == [[a[0]] + rest[0]] + rest[1..];
      assert [a[0]] + (a[1..] + Split(b)[0]) == a + Split(b)[0];
    } else {
      assert a + b == b;
      assert a + Split(b)[0] == Split(b)[0];
      assert Split(b) == [Split(b)[0]] + Split(b)[1..];
    }
  }

  /** Joining separator-free entries and splitting the result gives the entries back. */
  lemma {:induction false} SplitJoin(parts: seq<string>)
    requires |parts| >= 1
    requires NoSep(parts)
    ensures Split(Join(parts)) == parts
    decreases |parts|
  {
    if |parts| == 1 {
      SplitPrefix(parts[0], "");
      assert parts[0] + "" == parts[0];
    } else {
      var tail := parts[1..];
      SplitJoin(tail);
      SplitPrefix(parts[0], [Sep] + Join(tail));
      assert parts[0] + [Sep] + Join(tail) == parts[0] + ([Sep] + Join(tail));
      assert ([Sep] + Join(tail))[1..] == Join(tail);
      assert parts[0] + "" == parts[0];
      assert parts == [parts[0]] + tail;
    }
  }

  /** Splitting and joining again gives the original string back. */
  lemma {:induction false} JoinSplit(s: string)
    ensures Join(Split(s)) == s
    decreases |s|
  {
    if |s| > 0 {
      var rest := Split(s[1..]);
      JoinSplit(s[1..]);
      if s[0] == Sep {
        assert Split(s) == [""] + rest;
        assert ([""] + rest)[1..] == rest;
      } else {
        var parts := [[s[0]] + rest[0]] + rest[1..];
        assert Split(s) == parts;
        if |rest| == 1 {
          assert Join(parts) == [s[0]] + rest[0];
        } else {
          assert parts[1..] == rest[1..];
          assert Join(rest) == rest[0] + [Sep] + Join(rest[1..]);
        }
      }
    }
  }

  /** Position of the first occurrence of `y` in `xs`, or `|xs|` when there is none. */
  function FirstIndex(xs: seq<string>, y: string): (k: nat)
    ensures k <= |xs|
    ensures k < |xs| ==> xs[k] == y
    ensures forall i :: 0 <= i < k ==> xs[i] != y
  {
    if |xs| == 0 then 0
    else if xs[0] == y then 0
    else FirstIndex(xs[1..], y) + 1
  }

  /** `d` lists entries of `xs` in the order of their first occurrence in `xs`. */
  ghost predicate InFirstOccurrenceOrder(d: seq<string>, xs: seq<string>)
  {
    && (forall i :: 0 <= i < |d| ==> d[i] in xs)
    && (forall i, j :: 0 <= i < j < |d| ==> FirstIndex(xs, d[i]) < FirstIndex(xs, d[j]))
  }

  lemma OrderedHasNoDup(d: seq<string>, xs: seq<string>)
    requires InFirstOccurrenceOrder(d, xs)
    ensures NoDup(d)
  {
  }

  lemma {:induction false} FirstIndexOfPrefix(p: seq<string>, x: string, y: string)
    requires y in p
    ensures FirstIndex(p + [x], y) == FirstIndex(p, y)
  {
    var k := FirstIndex(p, y);
    var k' := FirstIndex(p + [x], y);
    assert (p + [x])[k] == y;
    assert k' <= k;
    assert p[k'] == (p + [x])[k'];
  }

  /** `OrderedDict.fromkeys(xs)`: every entry once, at its first occurrence. */
  function Dedup(xs: seq<string>): (d: seq<string>)
    ensures forall z :: z in d <==> z in xs
    ensures NoDup(d)
    decreases |xs|
  {
    if |xs| == 0 then []
    else
      var d := Dedup(xs[..|xs| - 1]);
      var x := xs[|xs| - 1];
      assert xs == xs[..|xs| - 1] + [x];
      if x in d then d else d + [x]
  }

  /** `Dedup` keeps every entry at the position of its first occurrence. */
  lemma {:induction false} DedupKeepsFirstOccurrenceOrder(xs: seq<string>)
    ensures InFirstOccurrenceOrder(Dedup(xs), xs)
    decreases |xs|
  {
    if |xs| > 0 {
      var p := xs[..|xs| - 1];
      var x := xs[|xs| - 1];
      var d := Dedup(p);
      DedupKeepsFirstOccurrenceOrder(p);
      assert xs == p + [x];
      forall y | y in p
        ensures FirstIndex(xs, y) == FirstIndex(p, y)
      {
        FirstIndexOfPrefix(p, x, y);
      }
      if x !in d {
        assert x !in p;
        assert FirstIndex(xs, x) == |xs| - 1;
        assert Dedup(xs) == d + [x];
      }
    }
  }

  /** Entries without duplicates are left alone by `Dedup`. */
  lemma {:induction false} DedupOfNoDup(xs: seq<string>)
    requires NoDup(xs)
    ensures Dedup(xs) == xs
    decreases |xs|
  {
    if |xs| > 0 {
      var p := xs[..|xs| - 1];
      var x := xs[|xs| - 1];
      assert NoDup(p) by {
        forall i, j | 0 <= i < j < |p|
          ensures p[i] != p[j]
        {
          assert p[i] == xs[i] && p[j] == xs[j];
        }
      }
      DedupOfNoDup(p);
      assert x !in p by {
        forall i | 0 <= i < |p|
          ensures p[i] != x
        {
          assert p[i] == xs[i];
        }
      }
      assert Dedup(xs) == Dedup(p) + [x];
      assert xs == p + [x];
    }
  }

  /** Drop every occurrence of `y`, keeping the order of the rest. */
  function Remove(xs: seq<string>, y: string): (r: seq<string>)
    ensures forall z :: z in r <==> z in xs && z != y
    ensures |r| <= |xs|
  {
    if |xs| == 0 then []
    else (if xs[0] == y then [] else [xs[0]]) + Remove(xs[1..], y)
  }

  lemma {:induction false} RemoveKeepsOrder(d: seq<string>, y: string, xs: seq<string>)
    requires InFirstOccurrenceOrder(d, xs)
    ensures InFirstOccurrenceOrder(Remove(d, y), xs)
    decreases |d|
  {
    if |d| > 0 {
      var rest := Remove(d[1..], y);
      assert InFirstOccurrenceOrder(d[1..], xs);
      RemoveKeepsOrder(d[1..], y, xs);
      if d[0] != y {
        HeadComesFirst(d, xs);
        forall j | 0 <= j < |rest|
          ensures FirstIndex(xs, d[0]) < FirstIndex(xs, rest[j])
        {
          assert rest[j] in d[1..];
        }
        OrderCons(d[0], rest, xs);
        assert Remove(d, y) == [d[0]] + rest;
      } else {
        assert Remove(d, y) == rest;
      }
    }
  }

  /** In a list in first-occurrence order, the head occurs in `xs` before every later entry. */
  lemma HeadComesFirst(d: seq<string>, xs: seq<string>)
    requires |d| > 0 && InFirstOccurrenceOrder(d, xs)
    ensures forall z :: z in d[1..] ==> FirstIndex(xs, d[0]) < FirstIndex(xs, z)
  {
    forall z | z in d[1..]
      ensures FirstIndex(xs, d[0]) < FirstIndex(xs, z)
    {
      var k :| 0 <= k < |d[1..]| && d[1..][k] == z;
      assert d[k + 1] == z;
    }
  }

  /** Putting an entry that occurs first in `xs` in front keeps first-occurrence order. */
  lemma OrderCons(x: string, r: seq<string>, xs: seq<string>)
    requires x in xs && InFirstOccurrenceOrder(r, xs)
    requires forall j :: 0 <= j < |r| ==> FirstIndex(xs, x) < FirstIndex(xs, r[j])
    ensures InFirstOccurrenceOrder([x] + r, xs)
  {
    var d := [x] + r;
    assert forall j :: 1 <= j < |d| ==> d[j] == r[j - 1];
    forall i | 0 <= i < |d|
      ensures d[i] in xs
    {
      if i > 0 {
        assert d[i] == r[i - 1];
      }
    }
    forall i, j | 0 <= i < j < |d|
      ensures FirstIndex(xs, d[i]) < FirstIndex(xs, d[j])
    {
      if i == 0 {
        assert FirstIndex(xs, x) < FirstIndex(xs, r[j - 1]);
      } else {
        assert FirstIndex(xs, r[i - 1]) < FirstIndex(xs, r[j - 1]);
      }
    }
  }

  lemma {:induction false} RemoveAbsent(xs: seq<string>, y: string)
    requires y !in xs
    ensures Remove(xs, y) == xs
    decreases |xs|
  {
    if |xs| > 0 {
      RemoveAbsent(xs[1..], y);
      assert xs == [xs[0]] + xs[1..];
    }
  }

  lemma {:induction false} RemoveAppend(a: seq<string>, b: seq<string>, y: string)
    ensures Remove(a + b, y) == Remove(a, y) + Remove(b, y)
    decreases |a|
  {
    if |a| > 0 {
      assert (a + b)[1..] == a[1..] + b;
      RemoveAppend(a[1..], b, y);
    } else {
      assert a + b == b;
    }
  }

  /** The entries that survive an add of `path`, in their stored order, without `path` itself. */
  function Kept(current: string, path: string): (kept: seq<string>)
    ensures forall e :: e in kept <==> e in Split(current) && e != "" && e != path
    ensures InFirstOccurrenceOrder(kept, Split(current))
    ensures NoSep(kept)
  {
    var d := Dedup(Split(current));
    var withoutEmpty := Remove(d, "");
    DedupKeepsFirstOccurrenceOrder(Split(current));
    RemoveKeepsOrder(d, "", Split(current));
    RemoveKeepsOrder(withoutEmpty, path, Split(current));
    var kept := Remove(withoutEmpty, path);
    SplitHasNoSep(current);
    forall i | 0 <= i < |kept|
      ensures Sep !in kept[i]
    {
      assert kept[i] in Split(current);
    }
    kept
  }

  /** The entries an add stores, when `path` has no separator, read back unchanged and without duplicates. */
  lemma AddedEntries(current: string, path: string)
    ensures Sep !in path ==>
      var entries := Kept(current, path) + [path];
      && Split(Join(entries)) == entries
      && NoDup(entries)
      && entries[..|entries| - 1] == Kept(current, path)
  {
    var kept := Kept(current, path);
    var entries := kept + [path];
    assert entries[..|entries| - 1] == kept;
    if Sep !in path {
      Snoc(kept, path);
      SplitJoin(entries);
      OrderedHasNoDup(kept, Split(current));
    }
  }

  /** Appending a new, separator-free entry keeps a list duplicate-free and separator-free. */
  lemma Snoc(xs: seq<string>, x: string)
    ensures NoSep(xs) && Sep !in x ==> NoSep(xs + [x])
    ensures NoDup(xs) && x !in xs ==> NoDup(xs + [x])
  {
    var ys := xs + [x];
    assert forall i :: 0 <= i < |xs| ==> ys[i] == xs[i];
    assert ys[|xs|] == x;
  }

  /**
    The "Add path to list" button: split the stored list, drop duplicates
    and the empty entry, move `path` to the end and join again.
   */
  function AddPath(current: string, path: string): (updated: string)
    ensures Sep !in path ==>
      var entries := Split(updated);
      && entries[|entries| - 1] == path
      && NoDup(entries)
      && (forall e :: e in entries <==> (e in Split(current) && e != "") || e == path)
      && InFirstOccurrenceOrder(entries[..|entries| - 1], Split(current))
  {
    AddedEntries(current, path);
    Join(Kept(current, path) + [path])
  }

  /** Re-reading a list of distinct non-empty entries followed by `path` keeps the entries. */
  lemma KeptOfAdded(kept: seq<string>, path: string)
    requires NoDup(kept + [path])
    requires "" !in kept && path !in kept
    ensures Remove(Remove(Dedup(kept + [path]), ""), path) == kept
  {
    var entries := kept + [path];
    DedupOfNoDup(entries);
    RemoveAppend(kept, [path], "");
    RemoveAbsent(kept, "");
    RemoveAppend(kept, [path], path);
    RemoveAbsent(kept, path);
    assert Remove([path], path) == [];
    if path == "" {
      assert Remove([path], "") == [];
      assert Remove(entries, "") == kept;
    } else {
      assert Remove([path], "") == [path];
      assert Remove(entries, "") == entries;
    }
  }

  /** Adding the same path a second time leaves the list as the first add left it. */
  lemma AddPathIdempotent(current: string, path: string)
    requires Sep !in path
    ensures AddPath(AddPath(current, path), path) == AddPath(current, path)
  {
    var once := AddPath(current, path);
    var kept := Kept(current, path);
    var entries := kept + [path];
    assert once == Join(entries);
    SplitJoin(entries);
    OrderedHasNoDup(kept, Split(current));
    assert NoDup(entries);
    KeptOfAdded(kept, path);
    assert Kept(once, path) == kept;
  }

  /** The "Clear all paths" button stores the empty string, which reads back as one empty entry. */
  function ClearedPaths(): (cleared: string)
    ensures Split(cleared) == [""]
  {
    ""
  }

  /** Adding a path to a cleared list stores exactly that path. */
  lemma AddToCleared(path: string)
    ensures AddPath(ClearedPaths(), path) == path
  {
    assert Dedup([""]) == [""];
    assert Remove([""], "") == [];
  }

  /** One unfolding of `Split` on a string that starts with `c`. */
  lemma SplitCons(c: char, s: string)
    ensures c == Sep ==> Split([c] + s) == [""] + Split(s)
    ensures c != Sep ==> Split([c] + s) == [[c] + Split(s)[0]] + Split(s)[1..]
  {
    assert ([c] + s)[0] == c && ([c] + s)[1..] == s;
  }

  /** A separator splits a string into the pieces of its two sides. */
  lemma {:induction false} SplitAtSep(a: string, b: string)
    ensures Split(a + ([Sep] + b)) == Split(a) + Split(b)
    decreases |a|
  {
    if |a| == 0 {
      assert a + ([Sep] + b) == [Sep] + b;
      SplitCons(Sep, b);
    } else {
      SplitAtSep(a[1..], b);
      SplitAtSepStep(a, [Sep] + b, Split(b));
    }
  }

  /** The inductive step of `SplitAtSep`: one more character in front of the separator. */
  lemma SplitAtSepStep(a: string, m: string, tail: seq<string>)
    requires |a| > 0
    requires Split(a[1..] + m) == Split(a[1..]) + tail
    ensures Split(a + m) == Split(a) + tail
  {
    var c := a[0];
    var t := a[1..];
    assert a == [c] + t;
    assert a + m == [c] + (t + m);
    if c == Sep {
      SplitCons(c, t + m);
      SplitCons(c, t);
      assert [""] + (Split(t) + tail) == ([""] + Split(t)) + tail;
    } else {
      SplitConsStep(c, t, m, tail);
    }
  }

  lemma SplitConsStep(c: char, t: string, m: string, tail: seq<string>)
    requires c != Sep
    requires Split(t + m) == Split(t) + tail
    ensures Split([c] + (t + m)) == Split([c] + t) + tail
  {
    SplitCons(c, t + m);
    SplitCons(c, t);
    var left := Split(t);
    var rest := left + tail;
    assert rest[0] == left[0];
    assert rest[1..] == left[1..] + tail;
    var h := [c] + left[0];
    assert [h] + (left[1..] + tail) == ([h] + left[1..]) + tail;
  }

  /** Appending one entry to a non-empty list adds a separator and the entry. */
  lemma {:induction false} JoinSnoc(parts: seq<string>, x: string)
    requires |parts| >= 1
    ensures Join(parts + [x]) == Join(parts) + [Sep] + x
    decreases |parts|
  {
    if |parts| > 1 {
      assert (parts + [x])[1..] == parts[1..] + [x];
      JoinSnoc(parts[1..], x);
    } else {
      assert (parts + [x])[1..] == [x];
    }
  }

  /**
    What the list stored by an add reads back as, for every path: the kept
    entries in their order, then the pieces of `path` between separators.
    A path without a separator is one piece; one with a separator is not.
   */
  lemma AddPathReadBack(current: string, path: string)
    ensures Split(AddPath(current, path)) == Kept(current, path) + Split(path)
  {
    var kept := Kept(current, path);
    assert AddPath(current, path) == Join(kept + [path]);
    SplitJoinSnoc(kept, path);
  }

  /** Separator-free entries followed by any string read back as the entries, then the string's pieces. */
  lemma SplitJoinSnoc(parts: seq<string>, x: string)
    requires NoSep(parts)
    ensures Split(Join(parts + [x])) == parts + Split(x)
  {
    if |parts| == 0 {
      assert parts + [x] == [x];
    } else {
      JoinSnoc(parts, x);
      assert Join(parts) + [Sep] + x == Join(parts) + ([Sep] + x);
      SplitAtSep(Join(parts), x);
      SplitJoin(parts);
    }
  }

  /** Splitting yields one piece more than the string has separators. */
  lemma {:induction false} SplitCountsSeparators(s: string)
    ensures |Split(s)| == multiset(s)[Sep] + 1
    decreases |s|
  {
    if |s| > 0 {
      SplitCountsSeparators(s[1..]);
      assert s == [s[0]] + s[1..];
      assert multiset(s) == multiset([s[0]]) + multiset(s[1..]);
    }
  }

  /**
    A path holding separators is stored as several entries: after the kept
    entries come one more entry than the path has separators.
   */
  lemma SeparatorsInPathSplitIt(current: string, path: string)
    ensures |Split(AddPath(current, path))| == |Kept(current, path)| + multiset(path)[Sep] + 1
    ensures Sep in path ==> |Split(AddPath(current, path))| >= |Kept(current, path)| + 2
  {
    AddPathReadBack(current, path);
    SplitCountsSeparators(path);
  }

  /** The path `a;b` added to a cleared list reads back as the two entries `a` and `b`. */
  lemma SeparatorInPathSplitsIt()
    ensures Split(AddPath(ClearedPaths(), "a;b")) == ["a", "b"]
  {
    AddToCleared("a;b");
    var parts := ["a", "b"];
    assert Join(parts[1..]) == "b";
    assert Join(parts) == "a" + [Sep] + "b" == "a;b";
    SplitJoin(parts);
  }
}
