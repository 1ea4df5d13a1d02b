/**
  `UsersController::search`: users whose name or nickname contains the
  keyword, ordered by name, first page of 24; nothing when the keyword is
  absent or falsy.
 */
module UserSearch {
  import opened Wrappers
  import opened Text
  import opened Records

  const PageSize: nat := 24

  predicate Matches(u: User, q: string) {
    Contains(u.name, q) || Contains(u.nickname, q)
  }

  function Matching(users: map<Id, User>, q: string): set<Id> {
    set k | k in users && Matches(users[k], q)
  }

  predicate SortedByName(users: map<Id, User>, r: seq<Id>)
    requires forall i :: 0 <= i < |r| ==> r[i] in users
  {
    forall i, j :: 0 <= i < j < |r| ==> NameLe(users[r[i]].name, users[r[j]].name)
  }

  /** A user of s whose name comes first. */
  ghost function Earliest(users: map<Id, User>, s: set<Id>): (m: Id)
    requires s != {} && s <= users.Keys
    ensures m in s
    ensures forall k :: k in s ==> NameLe(users[m].name, users[k].name)
    decreases s
  {
    assert exists x :: x in s by { NonEmptyHasMember(s); }
    var x :| x in s;
    if s == {x} then
      NameLeReflexive(users[x].name);
      x
    else
      var y := Earliest(users, s - {x});
      if NameLe(users[x].name, users[y].name) then
        EarliestFirst(users, s, x, y);
        x
      else
        NameLeTotal(users[x].name, users[y].name);
        y
  }

  lemma NonEmptyHasMember(s: set<Id>)
    requires s != {}
    ensures exists x :: x in s
  {
    if forall x :: x !in s {
      assert false;
    }
  }

  lemma EarliestFirst(users: map<Id, User>, s: set<Id>, x: Id, y: Id)
    requires s <= users.Keys && x in s && y in users
    requires forall k :: k in s - {x} ==> NameLe(users[y].name, users[k].name)
    requires NameLe(users[x].name, users[y].name)
    ensures forall k :: k in s ==> NameLe(users[x].name, users[k].name)
  {
    forall k | k in s
      ensures NameLe(users[x].name, users[k].name)
    {
      if k == x {
        NameLeReflexive(users[x].name);
      } else {
        NameLeTransitive(users[x].name, users[y].name, users[k].name);
      }
    }
  }

  /** The ids of s, each once, ordered by name. */
  ghost function ByName(users: map<Id, User>, s: set<Id>): (r: seq<Id>)
    requires s <= users.Keys
    ensures |r| == |s|
    ensures forall i :: 0 <= i < |r| ==> r[i] in s
    ensures forall k :: k in s ==> k in r
    ensures forall i :: 0 <= i < |r| ==> r[i] in users
    ensures SortedByName(users, r)
    decreases s
  {
    if s == {} then []
    else
      var m := Earliest(users, s);
      var rest := ByName(users, s - {m});
      ConsSorted(users, s, m, rest);
      [m] + rest
  }

  /** Putting a first-named id of s before a sorted listing of the rest of s lists s sorted. */
  lemma ConsSorted(users: map<Id, User>, s: set<Id>, m: Id, rest: seq<Id>)
    requires s <= users.Keys && m in s
    requires forall k :: k in s ==> NameLe(users[m].name, users[k].name)
    requires forall i :: 0 <= i < |rest| ==> rest[i] in s - {m}
    requires forall k :: k in s - {m} ==> k in rest
    requires forall i :: 0 <= i < |rest| ==> rest[i] in users
    requires SortedByName(users, rest)
    ensures forall i :: 0 <= i < |[m] + rest| ==> ([m] + rest)[i] in s
    ensures forall k :: k in s ==> k in [m] + rest
    ensures forall i :: 0 <= i < |[m] + rest| ==> ([m] + rest)[i] in users
    ensures SortedByName(users, [m] + rest)
  {
    var r := [m] + rest;
    forall i, j | 0 <= i < j < |r|
      ensures NameLe(users[r[i]].name, users[r[j]].name)
    {
      if i == 0 {
        assert r[j] == rest[j - 1];
      } else {
        assert r[i] == rest[i - 1] && r[j] == rest[j - 1];
      }
    }
    forall k | k in s
      ensures k in r
    {
      if k != m {
        assert k in rest;
      }
    }
  }

  /**
    The first page of results: users whose name or nickname contains q,
    ordered by name.
   */
  ghost function Search(users: map<Id, User>, q: Option<string>): (r: seq<Id>)
    ensures |r| <= PageSize
    ensures forall i :: 0 <= i < |r| ==> r[i] in users && q.Some? && Matches(users[r[i]], q.value)
    ensures SortedByName(users, r)
  {
    if !Truthy(q) then []
    else
      var all := ByName(users, Matching(users, q.value));
      if |all| <= PageSize then all else all[..PageSize]
  }

  /** An absent, empty or "0" keyword finds nobody. */
  lemma SearchWithoutKeyword(users: map<Id, User>, q: Option<string>)
    requires !Truthy(q)
    ensures Search(users, q) == []
  {
  }

  /**
    With a keyword, the page holds min(24, number of matches) distinct users,
    every match is on it when there are at most 24, and no match left off
    the page sorts before one on it.
   */
  lemma SearchIsFirstPage(users: map<Id, User>, q: Option<string>)
    requires Truthy(q)
    ensures var r := Search(users, q); var m := Matching(users, q.value);
      && |r| == (if |m| <= PageSize then |m| else PageSize)
      && (forall i, j :: 0 <= i < j < |r| ==> r[i] != r[j])
      && (|m| <= PageSize ==> forall k :: k in m ==> k in r)
      && (forall k, i :: k in m && k !in r && 0 <= i < |r| ==> NameLe(users[r[i]].name, users[k].name))
  {
    var m := Matching(users, q.value);
    var all := ByName(users, m);
    var r := Search(users, q);
    assert r == if |all| <= PageSize then all else all[..PageSize];
    assert forall i, j :: 0 <= i < j < |all| ==> all[i] != all[j] by {
      DistinctWhenSized(all, m);
    }
    forall k, i | k in m && k !in r && 0 <= i < |r|
      ensures NameLe(users[r[i]].name, users[k].name)
    {
      var j :| 0 <= j < |all| && all[j] == k;
      assert j >= |r|;
      assert r[i] == all[i];
    }
  }

  /** A sequence as long as the set it enumerates repeats nothing. */
  lemma {:induction false} DistinctWhenSized(r: seq<Id>, s: set<Id>)
    requires |r| == |s|
    requires forall k :: k in s ==> k in r
    ensures forall i, j :: 0 <= i < j < |r| ==> r[i] != r[j]
  {
    if exists i, j :: 0 <= i < j < |r| && r[i] == r[j] {
      var i, j :| 0 <= i < j < |r| && r[i] == r[j];
      var t := r[..j] + r[j + 1..];
      forall k | k in s
        ensures k in t
      {
        var p :| 0 <= p < |r| && r[p] == k;
        if p == j {
          assert t[i] == k;
        } else if p < j {
          assert t[p] == k;
        } else {
          assert t[p - 1] == k;
        }
      }
      SetWithinSeq(t, s);
      assert false;
    }
  }

  /** A set whose members all occur in a sequence is no larger than the sequence. */
  lemma {:induction false} SetWithinSeq(t: seq<Id>, s: set<Id>)
    requires forall k :: k in s ==> k in t
    ensures |s| <= |t|
    decreases |t|
  {
    if t != [] {
      var rest := s - {t[0]};
      forall k | k in rest
        ensures k in t[1..]
      {
        var p :| 0 <= p < |t| && t[p] == k;
        assert p != 0;
        assert t[1..][p - 1] == k;
      }
      SetWithinSeq(t[1..], rest);
    } else {
      assert forall k :: k !in s;
      assert s == {};
    }
  }
}
