/** The problem recommender behind `GET /recommend`
    (server/routes/recommend.js): a fixed-priority selector over one user's
    problems that picks a random unsolved problem, one from the least
    practised topic, the first bookmark and the first open Hard problem, and
    then drops repeated ids. */
module Recommend {
  import opened Common

  /** A stored problem; `topic` may be missing from the document. */
  datatype Problem = Problem(id: string, topic: Option<string>, difficulty: string, status: string)

  predicate IsUnsolved(p: Problem) { p.status == "unsolved" }
  predicate IsBookmarked(p: Problem) { p.status == "bookmark" }
  predicate IsSolved(p: Problem) { p.status == "solved" }
  predicate IsOpenHard(p: Problem) { p.difficulty == "Hard" && p.status != "solved" }

  /** The least-topic test: filed under `topic` and not solved. */
  function OpenIn(topic: string): Problem -> bool
  {
    (p: Problem) => p.topic == Some(topic) && p.status != "solved"
  }

  /** `problems.filter(f)`. */
  function Filter(ps: seq<Problem>, f: Problem -> bool): (r: seq<Problem>)
    ensures |r| <= |ps|
  {
    if ps == [] then []
    else (if f(ps[0]) then [ps[0]] else []) + Filter(ps[1..], f)
  }

  /** The filter keeps exactly the problems that pass the test. */
  lemma {:induction false} FilterMembers(ps: seq<Problem>, f: Problem -> bool)
    ensures forall q :: q in Filter(ps, f) <==> q in ps && f(q)
  {
    if ps != [] {
      FilterMembers(ps[1..], f);
      assert ps == [ps[0]] + ps[1..];
    }
  }

  /** `problems.find(f)`: the first problem, in input order, satisfying `f`. */
  function Find(ps: seq<Problem>, f: Problem -> bool): (r: Option<Problem>)
    ensures r.Some? ==> r.value in ps && f(r.value)
  {
    if ps == [] then None
    else if f(ps[0]) then Some(ps[0])
    else Find(ps[1..], f)
  }

  /** `find` comes back empty exactly when no problem passes the test. */
  lemma {:induction false} FindNone(ps: seq<Problem>, f: Problem -> bool)
    ensures Find(ps, f).None? <==> forall q :: q in ps ==> !f(q)
  {
    if ps != [] && !f(ps[0]) {
      FindNone(ps[1..], f);
      assert ps == [ps[0]] + ps[1..];
    }
  }

  /** `Find` returns the earliest match: no problem before it satisfies `f`. */
  lemma {:induction false} FindIsFirst(ps: seq<Problem>, f: Problem -> bool)
    requires Find(ps, f).Some?
    ensures exists i :: 0 <= i < |ps| && ps[i] == Find(ps, f).value &&
                        forall j :: 0 <= j < i ==> !f(ps[j])
  {
    if !f(ps[0]) {
      FindIsFirst(ps[1..], f);
      var i :| 0 <= i < |ps[1..]| && ps[1..][i] == Find(ps[1..], f).value &&
               forall j :: 0 <= j < i ==> !f(ps[1..][j]);
      assert ps[i + 1] == Find(ps, f).value;
      forall j | 0 <= j < i + 1 ensures !f(ps[j]) {
        if j > 0 { assert ps[j] == ps[1..][j - 1]; }
      }
    } else {
      assert ps[0] == Find(ps, f).value;
    }
  }

  /** The head of a filter is what `find` returns for the same test. */
  lemma {:induction false} FilterHeadIsFind(ps: seq<Problem>, f: Problem -> bool)
    ensures Filter(ps, f) == [] <==> Find(ps, f).None?
    ensures Filter(ps, f) != [] ==> Filter(ps, f)[0] == Find(ps, f).value
  {
    if ps != [] && !f(ps[0]) {
      FilterHeadIsFind(ps[1..], f);
    }
  }

  // ---------------------------------------------------------------------
  // Topic counting and the least practised topic

  /** The key JavaScript uses for `topicCount[p.topic]`: a missing topic
      becomes the string "undefined". */
  function TopicKey(p: Problem): string
  {
    if p.topic.Some? then p.topic.value else "undefined"
  }

  function TopicKeys(ps: seq<Problem>): (r: seq<string>)
    ensures |r| == |ps|
    ensures forall i :: 0 <= i < |ps| ==> r[i] == TopicKey(ps[i])
  {
    if ps == [] then [] else TopicKeys(ps[..|ps| - 1]) + [TopicKey(ps[|ps| - 1])]
  }

  /** How many of `ps` are filed under topic key `k`. */
  function CountOf(ps: seq<Problem>, k: string): (n: nat)
    ensures n <= |ps|
    ensures n >= 1 <==> k in TopicKeys(ps)
  {
    if ps == [] then 0
    else CountOf(ps[..|ps| - 1], k) + (if TopicKey(ps[|ps| - 1]) == k then 1 else 0)
  }

  /** The `topicCount` object after the `forEach` over `solved`: each
      problem adds one to its topic's entry, creating it at 1. */
  function TopicCounts(solved: seq<Problem>): map<string, nat>
  {
    if solved == [] then map[]
    else
      var m := TopicCounts(solved[..|solved| - 1]);
      var k := TopicKey(solved[|solved| - 1]);
      m[k := (if k in m then m[k] else 0) + 1]
  }

  /** The finished object has an entry for exactly the topics of the solved
      problems, holding how many solved problems carry that topic. */
  lemma {:induction false} TopicCountsAreCounts(solved: seq<Problem>, k: string)
    ensures k in TopicCounts(solved) <==> k in TopicKeys(solved)
    ensures k in TopicCounts(solved) ==> TopicCounts(solved)[k] == CountOf(solved, k)
  {
    if solved != [] {
      TopicCountsAreCounts(solved[..|solved| - 1], k);
    }
  }

  /** One step of the `forEach`, on the counts. */
  lemma CountStep(solved: seq<Problem>, i: nat)
    requires i < |solved|
    ensures var k := TopicKey(solved[i]);
      var m := TopicCounts(solved[..i]);
      TopicCounts(solved[..i + 1]) == m[k := (if k in m then m[k] else 0) + 1]
  {
    assert solved[..i + 1][..i] == solved[..i];
  }

  /** One step of the `forEach`, on the key order: a topic joins the keys
      when it has no entry yet. */
  lemma KeyStep(solved: seq<Problem>, i: nat)
    requires i < |solved|
    ensures var k := TopicKey(solved[i]);
      FirstSeen(TopicKeys(solved[..i + 1])) ==
        if k in TopicCounts(solved[..i]) then FirstSeen(TopicKeys(solved[..i]))
        else FirstSeen(TopicKeys(solved[..i])) + [k]
  {
    var k := TopicKey(solved[i]);
    var xs := TopicKeys(solved[..i]);
    assert solved[..i + 1][..i] == solved[..i];
    assert TopicKeys(solved[..i + 1]) == xs + [k];
    FirstSeenSnoc(xs, k);
    TopicCountsAreCounts(solved[..i], k);
    assert k in FirstSeen(xs) <==> k in xs;
  }

  /** The `forEach` over the solved problems that fills `topicCount`. Its
      key order, the order `Object.entries` reports, is the order in which
      topics are first seen. */
  method CountTopics(solved: seq<Problem>) returns (counts: map<string, nat>, keys: seq<string>)
    ensures counts == TopicCounts(solved)
    ensures keys == FirstSeen(TopicKeys(solved))
  {
    counts, keys := map[], [];
    for i := 0 to |solved|
      invariant counts == TopicCounts(solved[..i])
      invariant keys == FirstSeen(TopicKeys(solved[..i]))
    {
      var k := TopicKey(solved[i]);
      CountStep(solved, i);
      KeyStep(solved, i);
      if k in counts {
        counts := counts[k := counts[k] + 1];
      } else {
        counts := counts[k := 1];
        keys := keys + [k];
      }
    }
    assert solved[..|solved|] == solved;
  }

  /** The key at the head of the entries sorted by count, if any. The sort
      is stable, so its first entry is the first key, in key order, whose
      count is smallest. */
  function LeastTopic(keys: seq<string>, counts: map<string, nat>): (r: Option<string>)
    requires forall k :: k in keys ==> k in counts
    ensures r.Some? <==> keys != []
    ensures r.Some? ==> r.value in keys && forall k :: k in keys ==> counts[r.value] <= counts[k]
  {
    if keys == [] then None
    else
      var init := keys[..|keys| - 1];
      var last := keys[|keys| - 1];
      assert keys == init + [last];
      var best := LeastTopic(init, counts);
      if best.None? then Some(last)
      else if counts[last] < counts[best.value] then Some(last)
      else best
  }

  /** Key `t` is in `keys`, and every key before its first position has a
      strictly larger count. */
  predicate FirstWithLeast(keys: seq<string>, counts: map<string, nat>, t: string)
    requires forall k :: k in keys ==> k in counts
  {
    t in keys && forall j :: 0 <= j < IndexOf(keys, t) ==> counts[keys[j]] > counts[t]
  }

  /** Appending does not move the first position of a key already present. */
  lemma {:induction false} IndexOfSnoc(s: seq<string>, x: string, y: string)
    requires x in s
    ensures IndexOf(s + [y], x) == IndexOf(s, x)
  {
    if s[0] != x {
      assert (s + [y])[1..] == s[1..] + [y];
      IndexOfSnoc(s[1..], x, y);
    }
  }

  /** The stable sort puts first the earliest of the keys with the least
      count. */
  lemma {:induction false} LeastTopicIsFirst(keys: seq<string>, counts: map<string, nat>)
    requires forall k :: k in keys ==> k in counts
    requires LeastTopic(keys, counts).Some?
    ensures FirstWithLeast(keys, counts, LeastTopic(keys, counts).value)
  {
    var init := keys[..|keys| - 1];
    var last := keys[|keys| - 1];
    assert keys == init + [last];
    var best := LeastTopic(init, counts);
    var t := LeastTopic(keys, counts).value;
    if best.None? || counts[last] < counts[best.value] {
      forall j | 0 <= j < IndexOf(keys, t) ensures counts[keys[j]] > counts[t] {
        assert keys[j] in init;
      }
    } else {
      LeastTopicIsFirst(init, counts);
      IndexOfSnoc(init, t, last);
      forall j | 0 <= j < IndexOf(keys, t) ensures counts[keys[j]] > counts[t] {
        assert keys[j] == init[j];
      }
    }
  }

  /** Every key of the key order has an entry in the counts. */
  lemma KeysHaveCounts(solved: seq<Problem>)
    ensures forall k :: k in FirstSeen(TopicKeys(solved)) ==> k in TopicCounts(solved)
  {
    forall k | k in FirstSeen(TopicKeys(solved)) ensures k in TopicCounts(solved) {
      TopicCountsAreCounts(solved, k);
    }
  }

  /** The least practised topic of a problem list, from its solved problems. */
  function LeastPracticedTopic(ps: seq<Problem>): (r: Option<string>)
    ensures r.Some? ==> r.value in TopicKeys(Filter(ps, IsSolved))
  {
    var solved := Filter(ps, IsSolved);
    KeysHaveCounts(solved);
    LeastTopic(FirstSeen(TopicKeys(solved)), TopicCounts(solved))
  }

  /** A least practised topic exists exactly when some problem is solved. */
  lemma LeastPracticedTopicExists(ps: seq<Problem>)
    ensures LeastPracticedTopic(ps).Some? <==> exists p :: p in ps && IsSolved(p)
  {
    var solved := Filter(ps, IsSolved);
    FilterMembers(ps, IsSolved);
    if solved == [] {
      assert FirstSeen(TopicKeys(solved)) == [];
    } else {
      assert solved[0] in ps && IsSolved(solved[0]);
      assert FirstSeen(TopicKeys(solved)) != [];
    }
  }

  /** The least practised topic is the topic of some solved problem, and no
      topic with a solved problem has fewer solved problems. */
  lemma LeastPracticedTopicIsMinimal(ps: seq<Problem>)
    requires LeastPracticedTopic(ps).Some?
    ensures var solved := Filter(ps, IsSolved);
      var t := LeastPracticedTopic(ps).value;
      && t in TopicKeys(solved) && CountOf(solved, t) >= 1
      && forall k :: k in TopicKeys(solved) ==> CountOf(solved, t) <= CountOf(solved, k)
  {
    var solved := Filter(ps, IsSolved);
    var t := LeastPracticedTopic(ps).value;
    var counts := TopicCounts(solved);
    KeysHaveCounts(solved);
    TopicCountsAreCounts(solved, t);
    forall k | k in TopicKeys(solved) ensures CountOf(solved, t) <= CountOf(solved, k) {
      TopicCountsAreCounts(solved, k);
      assert k in FirstSeen(TopicKeys(solved));
    }
  }

  /** A key of the key order is counted as `CountOf` says. */
  lemma KeyCount(solved: seq<Problem>, k: string)
    requires k in FirstSeen(TopicKeys(solved))
    ensures k in TopicCounts(solved) && TopicCounts(solved)[k] == CountOf(solved, k)
  {
    TopicCountsAreCounts(solved, k);
  }

  /** Topic `t` is among the topics of `solved`, and every topic first seen
      before it has strictly more solved problems. */
  predicate FirstWithLeastCount(solved: seq<Problem>, t: string)
  {
    var keys := FirstSeen(TopicKeys(solved));
    t in keys && forall j :: 0 <= j < IndexOf(keys, t) ==> CountOf(solved, keys[j]) > CountOf(solved, t)
  }

  /** Ties go to the topic seen first among the solved problems: every topic
      that appears earlier has strictly more solved problems. */
  lemma LeastPracticedTopicTiesGoFirst(ps: seq<Problem>)
    requires LeastPracticedTopic(ps).Some?
    ensures FirstWithLeastCount(Filter(ps, IsSolved), LeastPracticedTopic(ps).value)
  {
    var solved := Filter(ps, IsSolved);
    KeysHaveCounts(solved);
    LeastTopicIsFirst(FirstSeen(TopicKeys(solved)), TopicCounts(solved));
    FirstInCountsIsFirstInSolved(solved, LeastPracticedTopic(ps).value);
  }

  /** The tie rule on the `topicCount` object carries over to `CountOf`. */
  lemma FirstInCountsIsFirstInSolved(solved: seq<Problem>, t: string)
    requires forall k :: k in FirstSeen(TopicKeys(solved)) ==> k in TopicCounts(solved)
    requires FirstWithLeast(FirstSeen(TopicKeys(solved)), TopicCounts(solved), t)
    ensures FirstWithLeastCount(solved, t)
  {
    var keys := FirstSeen(TopicKeys(solved));
    KeyCount(solved, t);
    forall j | 0 <= j < IndexOf(keys, t) ensures CountOf(solved, keys[j]) > CountOf(solved, t) {
      KeyCount(solved, keys[j]);
    }
  }

  // ---------------------------------------------------------------------
  // De-duplication by id

  function Ids(xs: seq<Problem>): (r: seq<string>)
    ensures |r| == |xs|
    ensures forall i :: 0 <= i < |xs| ==> r[i] == xs[i].id
  {
    if xs == [] then [] else Ids(xs[..|xs| - 1]) + [xs[|xs| - 1].id]
  }

  /** Position of the first element of `s` equal to `x`. */
  function IndexOf(s: seq<string>, x: string): (i: nat)
    requires x in s
    ensures i < |s| && s[i] == x
  {
    if s[0] == x then 0 else 1 + IndexOf(s[1..], x)
  }

  /** Overwriting an entry with a problem of the same id keeps the ids. */
  lemma IdsAfterOverwrite(u: seq<Problem>, i: nat, p: Problem)
    requires i < |u| && u[i].id == p.id
    ensures Ids(u[i := p]) == Ids(u)
  {
  }

  /** The ids of a list with one more problem at the end. */
  lemma IdsSnoc(u: seq<Problem>, p: Problem)
    ensures Ids(u + [p]) == Ids(u) + [p.id]
  {
    assert (u + [p])[..|u|] == u;
  }

  /** The values of a `Map` keyed by the id string: one
      entry per id, in the order the ids were first set; setting an id again
      overwrites its value in place. */
  function UniqueById(recs: seq<Problem>): (r: seq<Problem>)
    ensures |r| <= |recs|
  {
    if recs == [] then []
    else
      var u := UniqueById(recs[..|recs| - 1]);
      var last := recs[|recs| - 1];
      if last.id in Ids(u) then u[IndexOf(Ids(u), last.id) := last]
      else u + [last]
  }

  /** The ids come out once each, in the order they were first set, and
      there are no more entries than inputs. */
  lemma {:induction false} UniqueByIdIds(recs: seq<Problem>)
    ensures Ids(UniqueById(recs)) == FirstSeen(Ids(recs))
    ensures |UniqueById(recs)| <= |recs|
  {
    if recs != [] {
      var init := recs[..|recs| - 1];
      var last := recs[|recs| - 1];
      var u := UniqueById(init);
      UniqueByIdIds(init);
      assert Ids(recs) == Ids(init) + [last.id];
      FirstSeenSnoc(Ids(init), last.id);
      if last.id in Ids(u) {
        var i := IndexOf(Ids(u), last.id);
        assert UniqueById(recs) == u[i := last];
        IdsAfterOverwrite(u, i, last);
      } else {
        assert UniqueById(recs) == u + [last];
        IdsSnoc(u, last);
      }
    }
  }

  /** Every entry kept is one of the inputs. */
  lemma {:induction false} UniqueByIdFromInputs(recs: seq<Problem>)
    ensures forall q :: q in UniqueById(recs) ==> q in recs
  {
    if recs != [] {
      var init := recs[..|recs| - 1];
      var last := recs[|recs| - 1];
      var u := UniqueById(init);
      UniqueByIdFromInputs(init);
      assert init + [last] == recs;
      if last.id in Ids(u) {
        var i := IndexOf(Ids(u), last.id);
        forall q | q in u[i := last] ensures q in recs {
          var k :| 0 <= k < |u| && u[i := last][k] == q;
          if k != i { assert u[k] in u; }
        }
      }
    }
  }

  /** Every pick's id survives de-duplication, and the first pick's id
      comes first. */
  lemma UniqueByIdKeepsIds(recs: seq<Problem>)
    ensures forall q :: q in recs ==> q.id in Ids(UniqueById(recs))
    ensures recs != [] ==> UniqueById(recs) != [] && UniqueById(recs)[0].id == recs[0].id
  {
    var r := UniqueById(recs);
    UniqueByIdIds(recs);
    forall q | q in recs ensures q.id in Ids(r) {
      var i :| 0 <= i < |recs| && recs[i] == q;
      assert Ids(recs)[i] == q.id;
    }
    if recs != [] {
      assert Ids(recs)[0] == recs[0].id;
      assert Ids(r)[0] == r[0].id;
    }
  }

  /** The value kept for a repeated id is the one set last. */
  lemma LaterValueWins(a: Problem, b: Problem)
    requires a.id == b.id
    ensures UniqueById([a, b]) == [b]
  {
    var u := UniqueById([a]);
    assert u == [a] by { assert [a][..0] == []; }
    assert [a, b][..1] == [a];
    assert Ids(u) == [a.id];
    assert IndexOf(Ids(u), a.id) == 0;
  }

  /** When equal ids mean equal problems (as for stored documents), every
      pick survives de-duplication. */
  lemma UniqueKeepsEveryPick(recs: seq<Problem>)
    requires forall p, q :: p in recs && q in recs && p.id == q.id ==> p == q
    ensures forall p :: p in recs ==> p in UniqueById(recs)
  {
    var r := UniqueById(recs);
    UniqueByIdFromInputs(recs);
    UniqueByIdKeepsIds(recs);
    forall p | p in recs ensures p in r {
      var k :| 0 <= k < |r| && Ids(r)[k] == p.id;
      assert r[k] in recs && r[k].id == p.id;
    }
  }

  // ---------------------------------------------------------------------
  // The selector

  /** The random index into the unsolved problems is `choice`. */
  predicate ChoiceFits(ps: seq<Problem>, choice: nat)
  {
    |Filter(ps, IsUnsolved)| > 0 ==> choice < |Filter(ps, IsUnsolved)|
  }

  /** Pick 1: the randomly chosen unsolved problem. */
  function UnsolvedPick(ps: seq<Problem>, choice: nat): Option<Problem>
    requires ChoiceFits(ps, choice)
  {
    var unsolved := Filter(ps, IsUnsolved);
    if |unsolved| > 0 then Some(unsolved[choice]) else None
  }

  /** Pick 2: the first problem, in input order, filed under the least
      practised topic that is not solved (a bookmark qualifies); nothing
      when there is no such topic or it is the empty string. */
  function LeastTopicPick(ps: seq<Problem>): Option<Problem>
  {
    var least := LeastPracticedTopic(ps);
    if least.Some? && least.value != "" then Find(ps, OpenIn(least.value)) else None
  }

  /** Pick 3: the first bookmark. */
  function BookmarkPick(ps: seq<Problem>): Option<Problem>
  {
    var bookmarked := Filter(ps, IsBookmarked);
    if |bookmarked| > 0 then Some(bookmarked[0]) else None
  }

  /** Pick 4: the first problem that is Hard and not solved. */
  function HardPick(ps: seq<Problem>): Option<Problem>
  {
    Find(ps, IsOpenHard)
  }

  function AsSeq(o: Option<Problem>): seq<Problem>
  {
    if o.Some? then [o.value] else []
  }

  /** `recommendations.push(o)` when `o` is present. */
  function Pushed(recs: seq<Problem>, o: Option<Problem>): seq<Problem>
  {
    if o.Some? then recs + [o.value] else recs
  }

  /** The problems pushed, in order, before de-duplication. */
  function Picks(ps: seq<Problem>, choice: nat): seq<Problem>
    requires ChoiceFits(ps, choice)
  {
    AsSeq(UnsolvedPick(ps, choice)) + AsSeq(LeastTopicPick(ps)) + AsSeq(BookmarkPick(ps)) + AsSeq(HardPick(ps))
  }

  /** A pick that is present is a problem of the list that is not solved. */
  predicate OpenPick(ps: seq<Problem>, o: Option<Problem>)
  {
    o.Some? ==> o.value in ps && o.value.status != "solved"
  }

  lemma UnsolvedPickIsOpen(ps: seq<Problem>, choice: nat)
    requires ChoiceFits(ps, choice)
    ensures OpenPick(ps, UnsolvedPick(ps, choice))
  {
    var unsolved := Filter(ps, IsUnsolved);
    FilterMembers(ps, IsUnsolved);
    if |unsolved| > 0 {
      assert unsolved[choice] in unsolved;
    }
  }

  lemma LeastTopicPickIsOpen(ps: seq<Problem>)
    ensures OpenPick(ps, LeastTopicPick(ps))
  {
  }

  lemma BookmarkPickIsOpen(ps: seq<Problem>)
    ensures OpenPick(ps, BookmarkPick(ps))
  {
    var bookmarked := Filter(ps, IsBookmarked);
    FilterMembers(ps, IsBookmarked);
    if |bookmarked| > 0 {
      assert bookmarked[0] in bookmarked;
    }
  }

  /** Each pick is a problem of the list and none of them is solved. */
  lemma {:induction false} PicksAreOpen(ps: seq<Problem>, choice: nat)
    requires ChoiceFits(ps, choice)
    ensures |Picks(ps, choice)| <= 4
    ensures forall q :: q in Picks(ps, choice) ==> q in ps && q.status != "solved"
  {
    UnsolvedPickIsOpen(ps, choice);
    LeastTopicPickIsOpen(ps);
    BookmarkPickIsOpen(ps);
    OpenPicksJoin(ps, UnsolvedPick(ps, choice), LeastTopicPick(ps), BookmarkPick(ps), HardPick(ps));
  }

  lemma OpenPicksJoin(ps: seq<Problem>, a: Option<Problem>, b: Option<Problem>, c: Option<Problem>, d: Option<Problem>)
    requires OpenPick(ps, a) && OpenPick(ps, b) && OpenPick(ps, c) && OpenPick(ps, d)
    ensures var all := AsSeq(a) + AsSeq(b) + AsSeq(c) + AsSeq(d);
      |all| <= 4 && forall q :: q in all ==> q in ps && q.status != "solved"
  {
  }

  /** Lines 15-56 of the handler: group by status, count the solved
      topics, and push the four picks in order. The pushed problems are
      problems of the list, none of them solved, at most four. */
  method PickRecommendations(ps: seq<Problem>, choice: nat) returns (recommendations: seq<Problem>)
    requires ChoiceFits(ps, choice)
    ensures recommendations == Picks(ps, choice)
    ensures |recommendations| <= 4
    ensures forall q :: q in recommendations ==> q in ps && q.status != "solved"
  {
    var unsolved := Filter(ps, IsUnsolved);
    var bookmarked := Filter(ps, IsBookmarked);
    var solved := Filter(ps, IsSolved);

    var topicCount, topicOrder := CountTopics(solved);
    KeysHaveCounts(solved);
    var leastPracticedTopic := LeastTopic(topicOrder, topicCount);
    assert leastPracticedTopic == LeastPracticedTopic(ps);

    ghost var pick1, pick2, pick3, pick4 := UnsolvedPick(ps, choice), LeastTopicPick(ps), BookmarkPick(ps), HardPick(ps);
    recommendations := [];
    if |unsolved| > 0 {
      recommendations := recommendations + [unsolved[choice]];
    }
    assert recommendations == AsSeq(pick1);
    if leastPracticedTopic.Some? && leastPracticedTopic.value != "" {
      var fromLeastTopic := Find(ps, OpenIn(leastPracticedTopic.value));
      assert fromLeastTopic == pick2;
      if fromLeastTopic.Some? {
        recommendations := recommendations + [fromLeastTopic.value];
      }
    } else {
      assert pick2 == None;
    }
    assert recommendations == Pushed(AsSeq(pick1), pick2);
    if |bookmarked| > 0 {
      recommendations := recommendations + [bookmarked[0]];
    }
    assert recommendations == Pushed(Pushed(AsSeq(pick1), pick2), pick3);
    var hardProblem := Find(ps, IsOpenHard);
    assert hardProblem == pick4;
    if hardProblem.Some? {
      recommendations := recommendations + [hardProblem.value];
    }
    assert recommendations == Pushed(Pushed(Pushed(AsSeq(pick1), pick2), pick3), pick4);
    PushedIsPicks(ps, choice);
    PicksAreOpen(ps, choice);
  }

  /** The handler's selection, from the fetched problems to the JSON list:
      nothing for no problems; at most four problems, no id twice, none of
      them solved; the random unsolved pick first; and the least-topic,
      bookmark and Hard picks each present by id. */
  method Recommend(ps: seq<Problem>, choice: nat) returns (unique: seq<Problem>)
    requires ChoiceFits(ps, choice)
    ensures unique == UniqueById(Picks(ps, choice))
    ensures ps == [] ==> unique == []
    ensures |unique| <= 4
    ensures NoDup(Ids(unique))
    ensures forall q :: q in unique ==> q in ps && q.status != "solved"
    ensures |Filter(ps, IsUnsolved)| > 0 ==> unique != [] && unique[0].id == Filter(ps, IsUnsolved)[choice].id
    ensures LeastTopicPick(ps).Some? ==> LeastTopicPick(ps).value.id in Ids(unique)
    ensures BookmarkPick(ps).Some? ==> BookmarkPick(ps).value.id in Ids(unique)
    ensures HardPick(ps).Some? ==> HardPick(ps).value.id in Ids(unique)
  {
    if |ps| == 0 {
      return [];
    }
    var recommendations := PickRecommendations(ps, choice);
    unique := UniqueById(recommendations);
    SelectionFacts(ps, choice, unique);
  }

  /** What the handler promises about its answer, for the de-duplicated picks. */
  lemma SelectionFacts(ps: seq<Problem>, choice: nat, unique: seq<Problem>)
    requires ChoiceFits(ps, choice)
    requires unique == UniqueById(Picks(ps, choice))
    ensures |unique| <= 4
    ensures NoDup(Ids(unique))
    ensures forall q :: q in unique ==> q in ps && q.status != "solved"
    ensures |Filter(ps, IsUnsolved)| > 0 ==> unique != [] && unique[0].id == Filter(ps, IsUnsolved)[choice].id
    ensures LeastTopicPick(ps).Some? ==> LeastTopicPick(ps).value.id in Ids(unique)
    ensures BookmarkPick(ps).Some? ==> BookmarkPick(ps).value.id in Ids(unique)
    ensures HardPick(ps).Some? ==> HardPick(ps).value.id in Ids(unique)
  {
    SelectionIsOpen(ps, choice);
    SelectionStartsWithUnsolvedPick(ps, choice);
    PickIdsSurvive(ps, choice);
  }

  lemma PushedIsPicks(ps: seq<Problem>, choice: nat)
    requires ChoiceFits(ps, choice)
    ensures Pushed(Pushed(Pushed(AsSeq(UnsolvedPick(ps, choice)), LeastTopicPick(ps)), BookmarkPick(ps)), HardPick(ps))
      == Picks(ps, choice)
  {
    var a, b, c, d := AsSeq(UnsolvedPick(ps, choice)), LeastTopicPick(ps), BookmarkPick(ps), HardPick(ps);
    assert Pushed(a, b) == a + AsSeq(b);
    assert Pushed(a + AsSeq(b), c) == a + AsSeq(b) + AsSeq(c);
    assert Pushed(a + AsSeq(b) + AsSeq(c), d) == a + AsSeq(b) + AsSeq(c) + AsSeq(d);
  }

  /** The de-duplicated picks are problems of the list, none solved, at
      most four, and no id twice. */
  lemma SelectionIsOpen(ps: seq<Problem>, choice: nat)
    requires ChoiceFits(ps, choice)
    ensures |UniqueById(Picks(ps, choice))| <= 4
    ensures NoDup(Ids(UniqueById(Picks(ps, choice))))
    ensures forall q :: q in UniqueById(Picks(ps, choice)) ==> q in ps && q.status != "solved"
  {
    PicksAreOpen(ps, choice);
    UniqueByIdIds(Picks(ps, choice));
    UniqueByIdFromInputs(Picks(ps, choice));
  }

  /** The random unsolved pick, when there is one, leads the list. */
  lemma SelectionStartsWithUnsolvedPick(ps: seq<Problem>, choice: nat)
    requires ChoiceFits(ps, choice)
    ensures |Filter(ps, IsUnsolved)| > 0 ==>
      var u := UniqueById(Picks(ps, choice));
      u != [] && u[0].id == Filter(ps, IsUnsolved)[choice].id
  {
    UniqueByIdKeepsIds(Picks(ps, choice));
  }

  /** The id of each present pick is among the ids after de-duplication. */
  lemma PickIdsSurvive(ps: seq<Problem>, choice: nat)
    requires ChoiceFits(ps, choice)
    ensures var ids := Ids(UniqueById(Picks(ps, choice)));
      && (LeastTopicPick(ps).Some? ==> LeastTopicPick(ps).value.id in ids)
      && (BookmarkPick(ps).Some? ==> BookmarkPick(ps).value.id in ids)
      && (HardPick(ps).Some? ==> HardPick(ps).value.id in ids)
  {
    UniqueByIdKeepsIds(Picks(ps, choice));
  }

  /** The first bookmark pick is the first bookmarked problem in input
      order. */
  lemma BookmarkPickIsFirst(ps: seq<Problem>)
    ensures BookmarkPick(ps) == Find(ps, IsBookmarked)
  {
    FilterHeadIsFind(ps, IsBookmarked);
  }

  /** When every problem is solved there is nothing to recommend: no pick
      is made, so the handler answers with an empty list. */
  lemma NothingToRecommend(ps: seq<Problem>, choice: nat)
    requires forall i :: 0 <= i < |ps| ==> IsSolved(ps[i])
    ensures ChoiceFits(ps, choice)
    ensures Picks(ps, choice) == []
    ensures UniqueById(Picks(ps, choice)) == []
  {
    FilterNone(ps, IsUnsolved);
    FilterNone(ps, IsBookmarked);
    FindNone(ps, IsOpenHard);
    var least := LeastPracticedTopic(ps);
    if least.Some? && least.value != "" {
      FindNone(ps, OpenIn(least.value));
    }
  }

  /** A filter that no problem passes keeps nothing. */
  lemma {:induction false} FilterNone(ps: seq<Problem>, f: Problem -> bool)
    requires forall i :: 0 <= i < |ps| ==> !f(ps[i])
    ensures Filter(ps, f) == []
  {
    if ps != [] {
      assert forall i :: 0 <= i < |ps[1..]| ==> ps[1..][i] == ps[i + 1];
      FilterNone(ps[1..], f);
    }
  }
}
