/** The prompt lists the two bot interfaces keep: Python lists of dicts such
    as `{'user': text}`, together with the list operations their methods use
    and what those operations do to a list. */
module PromptList {
  import opened Python

  /** One entry of a prompt list: a Python dict from key to text. */
  type Entry = map<string, string>

  const System := "system"
  const Assistant := "assistant"
  const User := "user"
  const Role := "role"

  /** The entry `{kind: text}` that the append helpers build. */
  function Single(kind: string, text: string): Entry
  {
    map[kind := text]
  }

  /** An entry one of the append helpers could have built: exactly one key,
      and that key names a prompt kind. */
  predicate IsPromptEntry(e: Entry)
  {
    |e.Keys| == 1 && e.Keys <= {System, Assistant, User}
  }

  // ---------------------------------------------------------------------
  // list.remove

  /** Where `list.remove(x)` looks: the first position holding a value equal
      to `x`. */
  function FirstIndex<T(==)>(s: seq<T>, x: T): (i: nat)
    requires x in s
    ensures i < |s| && s[i] == x && x !in s[..i]
  {
    if s[0] == x then 0
    else
      var j := FirstIndex(s[1..], x);
      assert s[..j + 1] == [s[0]] + s[1..][..j];
      j + 1
  }

  /** `list.remove(x)`: one copy of `x` leaves the list, the first one, and
      every other element keeps its place relative to the rest. */
  function RemoveFirst<T(==)>(s: seq<T>, x: T): (r: seq<T>)
    requires x in s
    ensures |r| == |s| - 1
    ensures multiset(r) == multiset(s) - multiset{x}
    ensures exists i :: 0 <= i < |s| && s[i] == x && x !in s[..i] && r == s[..i] + s[i + 1..]
  {
    var i := FirstIndex(s, x);
    assert s == s[..i] + [x] + s[i + 1..];
    s[..i] + s[i + 1..]
  }

  // ---------------------------------------------------------------------
  // for entry in s: if kind in entry: s.remove(entry)

  /** The list left by `for entry in s: if kind in entry: s.remove(entry)`
      once the for loop's hidden index has reached `i`. The index advances by
      one on every step, also on a step that has just shortened the list, so
      the entry that moved into the freed slot is never looked at. */
  function SweepFrom(s: seq<Entry>, i: nat, kind: string): (r: seq<Entry>)
    decreases |s| - i
  {
    if i >= |s| then s
    else if kind in s[i] then SweepFrom(RemoveFirst(s, s[i]), i + 1, kind)
    else SweepFrom(s, i + 1, kind)
  }

  /** The whole removal loop, from index 0. */
  function Sweep(s: seq<Entry>, kind: string): (r: seq<Entry>)
    ensures |r| <= |s|
    ensures multiset(r) <= multiset(s)
  {
    SweepFromRemovesOnlyKind(s, 0, kind);
    SweepFrom(s, 0, kind)
  }

  /** The entries of `s` without key `kind`, in their order: what the
      removal loop is meant to leave. */
  function WithoutKind(s: seq<Entry>, kind: string): (r: seq<Entry>)
    ensures forall j :: 0 <= j < |r| ==> kind !in r[j]
    ensures forall e :: e in s && kind !in e ==> e in r
    ensures multiset(r) <= multiset(s)
  {
    if s == [] then []
    else
      assert s == [s[0]] + s[1..];
      (if kind in s[0] then [] else [s[0]]) + WithoutKind(s[1..], kind)
  }

  /** The filter keeps every copy of an entry without key `kind`. */
  lemma {:induction false} WithoutKindKeepsCopies(s: seq<Entry>, kind: string, e: Entry)
    requires kind !in e
    ensures multiset(WithoutKind(s, kind))[e] == multiset(s)[e]
  {
    if s != [] {
      assert s == [s[0]] + s[1..];
      WithoutKindKeepsCopies(s[1..], kind, e);
    }
  }

  lemma {:induction false} WithoutKindAppend(a: seq<Entry>, b: seq<Entry>, kind: string)
    ensures WithoutKind(a + b, kind) == WithoutKind(a, kind) + WithoutKind(b, kind)
  {
    if a == [] {
      assert a + b == b;
    } else {
      assert (a + b)[0] == a[0];
      assert (a + b)[1..] == a[1..] + b;
      WithoutKindAppend(a[1..], b, kind);
    }
  }

  /** Dropping one entry that has key `kind` from the middle of a list
      leaves the entries without it, and their order, alone. */
  lemma WithoutKindSkip(front: seq<Entry>, x: Entry, back: seq<Entry>, kind: string)
    requires kind in x
    ensures WithoutKind(front + [x] + back, kind) == WithoutKind(front + back, kind)
  {
    var tail := [x] + back;
    assert tail[0] == x && tail[1..] == back;
    assert WithoutKind(tail, kind) == WithoutKind(back, kind);
    assert front + [x] + back == front + tail;
    WithoutKindAppend(front, tail, kind);
    WithoutKindAppend(front, back, kind);
  }

  lemma RemoveFirstKeepsOthers(s: seq<Entry>, x: Entry, kind: string)
    requires x in s && kind in x
    ensures WithoutKind(RemoveFirst(s, x), kind) == WithoutKind(s, kind)
  {
    var i := FirstIndex(s, x);
    assert s == s[..i] + [x] + s[i + 1..];
    WithoutKindSkip(s[..i], x, s[i + 1..], kind);
  }

  lemma {:induction false} SweepFromRemovesOnlyKind(s: seq<Entry>, i: nat, kind: string)
    ensures WithoutKind(SweepFrom(s, i, kind), kind) == WithoutKind(s, kind)
    ensures multiset(SweepFrom(s, i, kind)) <= multiset(s)
    ensures |SweepFrom(s, i, kind)| <= |s|
    decreases |s| - i
  {
    if i < |s| {
      if kind in s[i] {
        RemoveFirstKeepsOthers(s, s[i], kind);
        SweepFromRemovesOnlyKind(RemoveFirst(s, s[i]), i + 1, kind);
      } else {
        SweepFromRemovesOnlyKind(s, i + 1, kind);
      }
    }
  }

  /** The removal loop never adds an entry and never removes one without key
      `kind`: the entries without it survive, all of them and in order. */
  lemma SweepRemovesOnlyKind(s: seq<Entry>, kind: string)
    ensures WithoutKind(Sweep(s, kind), kind) == WithoutKind(s, kind)
    ensures multiset(Sweep(s, kind)) <= multiset(s)
    ensures |Sweep(s, kind)| <= |s|
  {
    SweepFromRemovesOnlyKind(s, 0, kind);
  }

  /** No two neighbouring entries both have key `kind`. */
  predicate Apart(s: seq<Entry>, kind: string)
  {
    forall j :: 0 <= j < |s| - 1 && kind in s[j] ==> kind !in s[j + 1]
  }

  lemma {:induction false} SweepFromClearsApart(s: seq<Entry>, i: nat, kind: string)
    requires forall j :: 0 <= j < i && j < |s| ==> kind !in s[j]
    requires forall j :: i <= j < |s| - 1 && kind in s[j] ==> kind !in s[j + 1]
    ensures forall j :: 0 <= j < |SweepFrom(s, i, kind)| ==> kind !in SweepFrom(s, i, kind)[j]
    decreases |s| - i
  {
    if i < |s| {
      if kind in s[i] {
        assert s[i] !in s[..i];
        assert FirstIndex(s, s[i]) == i;
        var t := RemoveFirst(s, s[i]);
        assert t == s[..i] + s[i + 1..];
        SweepFromClearsApart(t, i + 1, kind);
      } else {
        SweepFromClearsApart(s, i + 1, kind);
      }
    }
  }

  lemma {:induction false} NoKindIsWithoutKind(s: seq<Entry>, kind: string)
    requires forall j :: 0 <= j < |s| ==> kind !in s[j]
    ensures WithoutKind(s, kind) == s
  {
    if s != [] {
      NoKindIsWithoutKind(s[1..], kind);
    }
  }

  /** When no two entries with key `kind` are neighbours, the removal loop
      leaves exactly the entries without that key, in their order. */
  lemma SweepApartIsWithoutKind(s: seq<Entry>, kind: string)
    requires Apart(s, kind)
    ensures Sweep(s, kind) == WithoutKind(s, kind)
  {
    SweepFromClearsApart(s, 0, kind);
    NoKindIsWithoutKind(Sweep(s, kind), kind);
    SweepRemovesOnlyKind(s, kind);
  }

  lemma {:induction false} SweepFromNoKind(s: seq<Entry>, i: nat, kind: string)
    requires forall j :: i <= j < |s| ==> kind !in s[j]
    ensures SweepFrom(s, i, kind) == s
    decreases |s| - i
  {
    if i < |s| {
      SweepFromNoKind(s, i + 1, kind);
    }
  }

  /** A list that starts with two entries with key `kind`, followed only by
      entries without it, keeps the second: it moves into the freed slot,
      which the loop index has already passed. */
  lemma SweepKeepsSecondOfAdjacent(a: Entry, b: Entry, rest: seq<Entry>, kind: string)
    requires kind in a && kind in b
    requires forall j :: 0 <= j < |rest| ==> kind !in rest[j]
    ensures Sweep([a, b] + rest, kind) == [b] + rest
  {
    var s := [a, b] + rest;
    assert FirstIndex(s, a) == 0;
    assert RemoveFirst(s, a) == [b] + rest;
    SweepFromNoKind([b] + rest, 1, kind);
  }

  /** Some entry with key `kind` sits before the loop index, or two
      neighbouring ones sit at or after it. */
  predicate KindBehindOrPairAhead(s: seq<Entry>, i: nat, kind: string)
  {
    (exists q :: 0 <= q < i && q < |s| && kind in s[q]) ||
    (exists j :: i <= j && j + 1 < |s| && kind in s[j] && kind in s[j + 1])
  }

  /** A step that removes an entry keeps `KindBehindOrPairAhead`: either the
      removed copy was an earlier one, and the entry at the index moves back
      behind it, or the index was on the copy removed, and what was behind it
      stays, or the second of the pair moves into the passed slot. */
  lemma RemoveStepKeepsKind(s: seq<Entry>, i: nat, kind: string)
    requires i < |s| && kind in s[i]
    requires KindBehindOrPairAhead(s, i, kind)
    ensures KindBehindOrPairAhead(RemoveFirst(s, s[i]), i + 1, kind)
  {
    var first := FirstIndex(s, s[i]);
    var t := RemoveFirst(s, s[i]);
    assert t == s[..first] + s[first + 1..];
    if first < i {
      assert t[i - 1] == s[i];
    } else if exists q :: 0 <= q < i && kind in s[q] {
      var q :| 0 <= q < i && kind in s[q];
      assert t[q] == s[q];
    } else {
      var j :| i <= j && j + 1 < |s| && kind in s[j] && kind in s[j + 1];
      if j <= i + 1 {
        assert t[i] == s[i + 1];
      } else {
        assert t[j - 1] == s[j] && t[j] == s[j + 1];
      }
    }
  }

  lemma {:induction false} SweepFromKeepsKind(s: seq<Entry>, i: nat, kind: string)
    requires KindBehindOrPairAhead(s, i, kind)
    ensures exists q :: 0 <= q < |SweepFrom(s, i, kind)| && kind in SweepFrom(s, i, kind)[q]
    decreases |s| - i
  {
    if i >= |s| {
      var q :| 0 <= q < i && q < |s| && kind in s[q];
      assert SweepFrom(s, i, kind) == s;
      assert kind in SweepFrom(s, i, kind)[q];
    } else if kind in s[i] {
      RemoveStepKeepsKind(s, i, kind);
      var t := RemoveFirst(s, s[i]);
      SweepFromKeepsKind(t, i + 1, kind);
      var r := SweepFrom(t, i + 1, kind);
      var q :| 0 <= q < |r| && kind in r[q];
      assert SweepFrom(s, i, kind) == r;
    } else {
      if exists q :: 0 <= q < i && q < |s| && kind in s[q] {
        var q :| 0 <= q < i && q < |s| && kind in s[q];
        assert q < i + 1;
      } else {
        var j :| i <= j && j + 1 < |s| && kind in s[j] && kind in s[j + 1];
        assert j != i;
      }
      SweepFromKeepsKind(s, i + 1, kind);
      var r := SweepFrom(s, i + 1, kind);
      var q :| 0 <= q < |r| && kind in r[q];
      assert SweepFrom(s, i, kind) == r;
    }
  }

  /** When two entries with key `kind` are neighbours anywhere in the list,
      some entry with that key survives the removal loop. */
  lemma SweepNotApartKeepsKind(s: seq<Entry>, kind: string)
    requires !Apart(s, kind)
    ensures exists j :: 0 <= j < |Sweep(s, kind)| && kind in Sweep(s, kind)[j]
  {
    var j :| 0 <= j < |s| - 1 && kind in s[j] && kind in s[j + 1];
    SweepFromKeepsKind(s, 0, kind);
    var r := SweepFrom(s, 0, kind);
    var q :| 0 <= q < |r| && kind in r[q];
    assert Sweep(s, kind) == r;
  }

  /** The removal loop clears every entry with key `kind` exactly when no
      two of them are neighbours. */
  lemma SweepClearsIffApart(s: seq<Entry>, kind: string)
    ensures (forall j :: 0 <= j < |Sweep(s, kind)| ==> kind !in Sweep(s, kind)[j]) <==> Apart(s, kind)
  {
    if Apart(s, kind) {
      SweepApartIsWithoutKind(s, kind);
      var w := WithoutKind(s, kind);
      assert forall j :: 0 <= j < |w| ==> kind !in w[j];
    } else {
      SweepNotApartKeepsKind(s, kind);
    }
  }

  // ---------------------------------------------------------------------
  // removeMostRecentUserPrompt

  /** The test the scan applies: `prompt.get('role') == 'user'`. */
  predicate IsRoleUser(e: Entry)
  {
    Role in e && e[Role] == User
  }

  /** The last position whose entry passes `IsRoleUser`, if any. */
  function MostRecentRoleUser(s: seq<Entry>): (r: Option<nat>)
    ensures r.Some? ==> r.value < |s| && IsRoleUser(s[r.value])
    ensures r.Some? ==> forall j :: r.value < j < |s| ==> !IsRoleUser(s[j])
    ensures r.None? ==> forall j :: 0 <= j < |s| ==> !IsRoleUser(s[j])
  {
    if s == [] then None
    else if IsRoleUser(s[|s| - 1]) then Some(|s| - 1)
    else MostRecentRoleUser(s[..|s| - 1])
  }

  /** The list `removeMostRecentUserPrompt` leaves: the value of the most
      recent entry passing `IsRoleUser` is handed to `list.remove`, which
      deletes the first entry equal to it. */
  function RemoveMostRecentRoleUser(s: seq<Entry>): (r: seq<Entry>)
    ensures MostRecentRoleUser(s).None? ==> r == s
    ensures MostRecentRoleUser(s).Some? ==>
              |r| == |s| - 1 &&
              multiset(r) == multiset(s) - multiset{s[MostRecentRoleUser(s).value]}
  {
    match MostRecentRoleUser(s)
    case None => s
    case Some(i) => RemoveFirst(s, s[i])
  }

  /** At most one entry leaves the list, and only one whose `'role'` is
      `'user'`. */
  lemma RemoveMostRecentAtMostOne(s: seq<Entry>)
    ensures var r := RemoveMostRecentRoleUser(s);
            r == s ||
            (|r| == |s| - 1 &&
             exists e :: e in s && IsRoleUser(e) && multiset(r) == multiset(s) - multiset{e})
  {
    match MostRecentRoleUser(s)
    case None =>
    case Some(i) =>
      assert s[i] in s && IsRoleUser(s[i]);
  }

  /** Without an entry whose `'role'` is `'user'` the scan removes nothing. */
  lemma RemoveMostRecentNoRoleUser(s: seq<Entry>)
    requires forall e :: e in s ==> !IsRoleUser(e)
    ensures RemoveMostRecentRoleUser(s) == s
  {
  }

  /** Entries built by the append helpers have no `'role'` key, so on a list
      made of them the scan removes nothing. */
  lemma PromptEntriesHaveNoRole(s: seq<Entry>)
    requires forall e :: e in s ==> IsPromptEntry(e)
    ensures RemoveMostRecentRoleUser(s) == s
  {
    forall e | e in s
      ensures !IsRoleUser(e)
    {
      assert Role !in {System, Assistant, User};
    }
    RemoveMostRecentNoRoleUser(s);
  }
}
