/** The comparison of two stargazer lists (`find_new_stargazers`). */
module Diff {

  /** No login occurs twice. */
  predicate NoDuplicates(s: seq<string>) {
    forall i, j :: 0 <= i < j < |s| ==> s[i] != s[j]
  }

  /** The logins of `current` that are not in `previous`, as a set. */
  function NewSet(previous: seq<string>, current: seq<string>): (d: set<string>)
    ensures forall x :: x in d <==> x in current && x !in previous
  {
    (set x | x in current) - (set x | x in previous)
  }

  /** Appending a login not yet in a duplicate-free list keeps it duplicate-free. */
  lemma AppendFresh(s: seq<string>, x: string)
    requires NoDuplicates(s)
    requires x !in s
    ensures NoDuplicates(s + [x])
  {
    var t := s + [x];
    forall i, j | 0 <= i < j < |t|
      ensures t[i] != t[j]
    {
      if j < |s| {
        assert t[i] == s[i] && t[j] == s[j];
      } else {
        assert t[i] == s[i] && s[i] in s;
      }
    }
  }

  /** `find_new_stargazers(old, new)`: the list built from the set difference
      `set(new) - set(old)`. It holds exactly the logins of `current` absent
      from `previous`, each once, however often it occurs in `current`. Its
      order is that of Python's set iteration, which this model leaves open:
      the method picks the elements in an unspecified order. */
  method FindNewStargazers(previous: seq<string>, current: seq<string>) returns (added: seq<string>)
    ensures forall x :: x in added <==> x in current && x !in previous
    ensures NoDuplicates(added)
    ensures |added| == |NewSet(previous, current)|
  {
    var remaining := NewSet(previous, current);
    ghost var taken: set<string> := {};
    added := [];
    while remaining != {}
      invariant remaining !! taken
      invariant remaining + taken == NewSet(previous, current)
      invariant forall y :: y in added <==> y in taken
      invariant NoDuplicates(added)
      invariant |added| == |taken|
      decreases remaining
    {
      var x :| x in remaining;
      assert x !in added;
      AppendFresh(added, x);
      added := added + [x];
      taken := taken + {x};
      remaining := remaining - {x};
    }
  }

  /** The difference is non-empty exactly when some current login is absent
      from the previous list. */
  lemma NewSetNonEmpty(previous: seq<string>, current: seq<string>)
    ensures NewSet(previous, current) != {} <==> exists i :: 0 <= i < |current| && current[i] !in previous
  {
  }

  /** When every current login was already known, the difference is empty:
      this is why a second run against an unchanged upstream reports nothing. */
  lemma NothingNewWhenKnown(previous: seq<string>, current: seq<string>, added: seq<string>)
    requires forall x :: x in added <==> x in current && x !in previous
    requires forall i :: 0 <= i < |current| ==> current[i] in previous
    ensures added == []
  {
    FirstIsMember(added);
  }

  lemma FirstIsMember(s: seq<string>)
    ensures s == [] || s[0] in s
  {
  }
}
