/** `countMultiProjectContributors`: counts git-log entries per author over
    the sub-folders of the contributors path and keeps the authors with more
    than one entry. Directory listing and the git log query are abstracted:
    the input holds one sequence of author names per sub-folder, in listing
    order, each in the order the log reports its entries. The source asks
    for each sub-folder's log without a path filter, so inside one
    repository each sequence may be the whole history; the model counts
    whatever sequences it is given. */
module Contributors {

  /** An author and the number of log entries attributed to them. */
  datatype Contributor = Contributor(name: string, commits: nat)

  /** Every log entry of every sub-folder, in the order the loops visit them. */
  function Flatten(logs: seq<seq<string>>): seq<string> {
    if |logs| == 0 then [] else Flatten(logs[..|logs| - 1]) + logs[|logs| - 1]
  }

  /** Number of entries by `author`. */
  function Commits(entries: seq<string>, author: string): nat {
    multiset(entries)[author]
  }

  /** Sum, over the sub-folders, of the entries by `author` in each. */
  function CommitsPerFolderTotal(logs: seq<seq<string>>, author: string): nat {
    if |logs| == 0 then 0
    else CommitsPerFolderTotal(logs[..|logs| - 1], author) + Commits(logs[|logs| - 1], author)
  }

  /** Position of the first occurrence of `a` in `xs`, or `|xs|` if there is none. */
  function FirstIndex<T(==)>(xs: seq<T>, a: T): (i: nat)
    ensures i <= |xs|
    ensures i < |xs| <==> a in xs
    ensures i < |xs| ==> xs[i] == a
    ensures forall k :: 0 <= k < i ==> xs[k] != a
  {
    if |xs| == 0 || xs[0] == a then 0 else 1 + FirstIndex(xs[1..], a)
  }

  /** `names` lists authors strictly in order of their first entry in `entries`. */
  ghost predicate InFirstAppearanceOrder(names: seq<string>, entries: seq<string>) {
    forall i, j :: 0 <= i < j < |names| ==>
      FirstIndex(entries, names[i]) < FirstIndex(entries, names[j])
  }

  /** The distinct authors of `entries`, in order of first appearance. */
  function Authors(entries: seq<string>): seq<string> {
    if |entries| == 0 then []
    else
      var earlier := entries[..|entries| - 1];
      var last := entries[|entries| - 1];
      if last in earlier then Authors(earlier) else Authors(earlier) + [last]
  }

  function Names(cs: seq<Contributor>): seq<string> {
    if |cs| == 0 then [] else Names(cs[..|cs| - 1]) + [cs[|cs| - 1].name]
  }

  /** The authors of `order` with more than one entry in `entries`, with their counts. */
  function KeepRepeated(order: seq<string>, entries: seq<string>): seq<Contributor> {
    if |order| == 0 then []
    else
      var kept := KeepRepeated(order[..|order| - 1], entries);
      var a := order[|order| - 1];
      if Commits(entries, a) > 1 then kept + [Contributor(a, Commits(entries, a))] else kept
  }

  /** Reference definition of the result: every author with more than one
      log entry overall, with that number, in order of first appearance. */
  function MultiProjectContributors(logs: seq<seq<string>>): seq<Contributor> {
    KeepRepeated(Authors(Flatten(logs)), Flatten(logs))
  }

  /** `keys` and `counts` are the JavaScript `Map` built from the entries
      `seen`: its keys in insertion order and the count stored for each. */
  ghost predicate IsTallyOf(keys: seq<string>, counts: map<string, nat>, seen: seq<string>) {
    && keys == Authors(seen)
    && (forall a :: a in counts <==> a in seen)
    && (forall a :: a in counts ==> counts[a] == Commits(seen, a))
  }

  /** One `contributors.set(author, (contributors.get(author) || 0) + 1)`:
      a new key is appended, an existing key keeps its place. */
  lemma {:induction false} RecordEntry(keys: seq<string>, counts: map<string, nat>, seen: seq<string>, author: string)
    requires IsTallyOf(keys, counts, seen)
    ensures IsTallyOf(if author in counts then keys else keys + [author],
                      counts[author := (if author in counts then counts[author] else 0) + 1],
                      seen + [author])
  {
    assert (seen + [author])[..|seen|] == seen;
  }

  /** The inner loop of the source over the log of one sub-folder. */
  method TallyFolder(keys0: seq<string>, counts0: map<string, nat>, ghost seen: seq<string>,
                     entries: seq<string>) returns (keys: seq<string>, counts: map<string, nat>)
    requires IsTallyOf(keys0, counts0, seen)
    ensures IsTallyOf(keys, counts, seen + entries)
  {
    keys, counts := keys0, counts0;
    ghost var done := seen;
    for j := 0 to |entries|
      invariant done == seen + entries[..j]
      invariant IsTallyOf(keys, counts, done)
    {
      var author := entries[j];
      RecordEntry(keys, counts, done, author);
      PrefixStep(seen, entries, j);
      var previous := if author in counts then counts[author] else 0;
      if author !in counts {
        keys := keys + [author];
      }
      counts := counts[author := previous + 1];
      done := done + [author];
    }
    assert entries[..|entries|] == entries;
  }

  lemma PrefixStep(seen: seq<string>, entries: seq<string>, j: nat)
    requires j < |entries|
    ensures seen + entries[..j + 1] == (seen + entries[..j]) + [entries[j]]
  {
    assert entries[..j + 1] == entries[..j] + [entries[j]];
  }

  /** The nested loops of the source, which fill a `Map` from author to count. */
  method TallyLogs(logs: seq<seq<string>>) returns (keys: seq<string>, counts: map<string, nat>)
    ensures keys == Authors(Flatten(logs))
    ensures forall a :: a in counts <==> a in Flatten(logs)
    ensures forall a :: a in counts ==> counts[a] == Commits(Flatten(logs), a)
  {
    keys, counts := [], map[];
    for i := 0 to |logs|
      invariant IsTallyOf(keys, counts, Flatten(logs[..i]))
    {
      keys, counts := TallyFolder(keys, counts, Flatten(logs[..i]), logs[i]);
      assert logs[..i + 1][..i] == logs[..i];
    }
    assert logs[..|logs|] == logs;
  }

  /** `countMultiProjectContributors`: the tally, then
      `Array.from(entries).filter(([, count]) => count > 1)`. */
  method CountMultiProjectContributors(logs: seq<seq<string>>) returns (r: seq<Contributor>)
    ensures r == MultiProjectContributors(logs)
  {
    var keys, counts := TallyLogs(logs);
    AuthorsAreEntries(Flatten(logs));
    r := [];
    for k := 0 to |keys|
      invariant r == KeepRepeated(keys[..k], Flatten(logs))
    {
      assert keys[..k + 1][..k] == keys[..k];
      if counts[keys[k]] > 1 {
        r := r + [Contributor(keys[k], counts[keys[k]])];
      }
    }
    assert keys[..|keys|] == keys;
  }

  /** The count of an author over all sub-folders is the sum of their counts
      per sub-folder: log entries are counted, not distinct folders. */
  lemma {:induction false} CommitsAcrossFolders(logs: seq<seq<string>>, author: string)
    ensures Commits(Flatten(logs), author) == CommitsPerFolderTotal(logs, author)
  {
    if |logs| > 0 {
      CommitsAcrossFolders(logs[..|logs| - 1], author);
    }
  }

  /** `Authors` lists exactly the authors of some entry. */
  lemma {:induction false} AuthorsAreEntries(entries: seq<string>)
    ensures forall a :: a in Authors(entries) <==> a in entries
  {
    if |entries| > 0 {
      var earlier := entries[..|entries| - 1];
      AuthorsAreEntries(earlier);
      assert entries == earlier + [entries[|entries| - 1]];
    }
  }

  /** Appending an entry does not move the first occurrence of an earlier author. */
  lemma {:induction false} FirstIndexAppend(xs: seq<string>, b: string, a: string)
    ensures a in xs ==> FirstIndex(xs + [b], a) == FirstIndex(xs, a)
    ensures a !in xs && a == b ==> FirstIndex(xs + [b], a) == |xs|
  {
    if |xs| > 0 && xs[0] != a {
      assert (xs + [b])[1..] == xs[1..] + [b];
      FirstIndexAppend(xs[1..], b, a);
    }
  }

  /** `Authors` has no repetitions and follows first appearance. */
  lemma {:induction false} AuthorsInOrder(entries: seq<string>)
    ensures InFirstAppearanceOrder(Authors(entries), entries)
  {
    if |entries| > 0 {
      var earlier := entries[..|entries| - 1];
      var last := entries[|entries| - 1];
      assert entries == earlier + [last];
      AuthorsInOrder(earlier);
      AuthorsAreEntries(earlier);
      var before, after := Authors(earlier), Authors(entries);
      forall i, j | 0 <= i < j < |after|
        ensures FirstIndex(entries, after[i]) < FirstIndex(entries, after[j])
      {
        FirstIndexAppend(earlier, last, after[i]);
        FirstIndexAppend(earlier, last, after[j]);
        if j < |before| {
          assert after[i] == before[i] && after[j] == before[j];
        } else {
          assert after[i] == before[i];
        }
      }
    }
  }

  /** `Names` lists the names of its argument, position by position. */
  lemma {:induction false} NamesAt(cs: seq<Contributor>)
    ensures |Names(cs)| == |cs|
    ensures forall i :: 0 <= i < |cs| ==> Names(cs)[i] == cs[i].name
  {
    if |cs| > 0 {
      NamesAt(cs[..|cs| - 1]);
    }
  }

  /** Every listed contributor has more than one entry in `entries`, and
      is listed with exactly that number. */
  ghost predicate RepeatedWithCounts(cs: seq<Contributor>, entries: seq<string>) {
    forall i :: 0 <= i < |cs| ==> cs[i].commits == Commits(entries, cs[i].name) && cs[i].commits > 1
  }

  /** The entries `KeepRepeated` keeps are repeated authors with their counts. */
  lemma {:induction false} KeepRepeatedCounts(order: seq<string>, entries: seq<string>)
    ensures RepeatedWithCounts(KeepRepeated(order, entries), entries)
  {
    if |order| > 0 {
      var kept := KeepRepeated(order[..|order| - 1], entries);
      KeepRepeatedCounts(order[..|order| - 1], entries);
      var r := KeepRepeated(order, entries);
      var a := order[|order| - 1];
      if Commits(entries, a) > 1 {
        assert r == kept + [Contributor(a, Commits(entries, a))];
      } else {
        assert r == kept;
      }
      forall i | 0 <= i < |r| ensures r[i].commits == Commits(entries, r[i].name) && r[i].commits > 1 {
        if i < |kept| {
          assert r[i] == kept[i];
        } else {
          assert r[i] == Contributor(a, Commits(entries, a));
        }
      }
    }
  }

  /** `KeepRepeated` keeps exactly the repeated authors of `order`. */
  lemma {:induction false} KeepRepeatedNames(order: seq<string>, entries: seq<string>)
    ensures forall a :: a in Names(KeepRepeated(order, entries)) <==>
      a in order && Commits(entries, a) > 1
  {
    if |order| > 0 {
      var init := order[..|order| - 1];
      assert order == init + [order[|order| - 1]];
      KeepRepeatedNames(init, entries);
      var r := KeepRepeated(order, entries);
      if Commits(entries, order[|order| - 1]) > 1 {
        assert r[..|r| - 1] == KeepRepeated(init, entries);
      }
    }
  }

  /** `KeepRepeated` keeps the relative order of `order`. */
  lemma {:induction false} KeepRepeatedInOrder(order: seq<string>, entries: seq<string>)
    requires InFirstAppearanceOrder(order, entries)
    ensures InFirstAppearanceOrder(Names(KeepRepeated(order, entries)), entries)
  {
    if |order| > 0 {
      var init := order[..|order| - 1];
      var a := order[|order| - 1];
      assert InFirstAppearanceOrder(init, entries);
      KeepRepeatedInOrder(init, entries);
      KeepRepeatedNames(init, entries);
      var prev := KeepRepeated(init, entries);
      var r := KeepRepeated(order, entries);
      if Commits(entries, a) > 1 {
        assert r[..|r| - 1] == prev;
        var names := Names(r);
        assert names == Names(prev) + [a];
        forall i, j | 0 <= i < j < |names|
          ensures FirstIndex(entries, names[i]) < FirstIndex(entries, names[j])
        {
          if j == |names| - 1 {
            assert names[i] == Names(prev)[i] && names[i] in init;
            var k :| 0 <= k < |init| && init[k] == names[i];
            assert order[k] == init[k];
          } else {
            assert names[i] == Names(prev)[i] && names[j] == Names(prev)[j];
          }
        }
      }
    }
  }

  /** The result lists exactly the authors with more than one log entry
      overall, each once, with that count, in order of first appearance. */
  lemma {:induction false} MultiProjectContributorsSpec(logs: seq<seq<string>>)
    ensures var entries, r := Flatten(logs), MultiProjectContributors(logs);
      && (forall i :: 0 <= i < |r| ==> r[i].commits == Commits(entries, r[i].name) && r[i].commits > 1)
      && (forall a :: a in Names(r) <==> Commits(entries, a) > 1)
      && (forall i, j :: 0 <= i < j < |r| ==> r[i].name != r[j].name)
      && (forall i, j :: 0 <= i < j < |r| ==>
            FirstIndex(entries, r[i].name) < FirstIndex(entries, r[j].name))
  {
    var entries, r := Flatten(logs), MultiProjectContributors(logs);
    AuthorsAreEntries(entries);
    AuthorsInOrder(entries);
    KeepRepeatedCounts(Authors(entries), entries);
    KeepRepeatedNames(Authors(entries), entries);
    KeepRepeatedInOrder(Authors(entries), entries);
    NamesAt(r);
  }

  /** An author with entries in two sub-folders is listed; one with a single
      entry is not; two entries in one sub-folder also count. */
  lemma {:induction false} MultiProjectContributorsExamples()
    ensures MultiProjectContributors([["Alice"], ["Alice", "Bob"]]) == [Contributor("Alice", 2)]
    ensures MultiProjectContributors([["Bob", "Bob"]]) == [Contributor("Bob", 2)]
  {
    var logs := [["Alice"], ["Alice", "Bob"]];
    assert logs[..1] == [["Alice"]];
    assert Flatten(logs) == ["Alice", "Alice", "Bob"];
    var es := Flatten(logs);
    assert es[..2] == ["Alice", "Alice"] && es[..2][..1] == ["Alice"];
    assert Authors(es[..2][..1]) == ["Alice"];
    assert Authors(es[..2]) == ["Alice"];
    assert Authors(es) == ["Alice", "Bob"];
    assert Commits(es, "Bob") == 1;
    assert ["Alice", "Bob"][..1] == ["Alice"];
    var bob := [["Bob", "Bob"]];
    assert Flatten(bob) == ["Bob", "Bob"];
    assert ["Bob", "Bob"][..1] == ["Bob"];
  }
}
