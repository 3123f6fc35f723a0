/**
 * The meaning of the list operations, stated on the ordered sequence of task
 * values: first-match lookup, removal of every match, and overwriting the
 * status of the first match only.
 */
module TaskSeq {
  import opened Wrappers
  import opened Tasks

  /** `i` is the position of the first task in `s` named `n`. */
  predicate IsFirstMatch(s: seq<TaskValue>, n: string, i: int)
  {
    0 <= i < |s| && s[i].name == n && forall j :: 0 <= j < i ==> s[j].name != n
  }

  /** No task in `s` is named `n`. */
  predicate Absent(s: seq<TaskValue>, n: string)
  {
    forall i :: 0 <= i < |s| ==> s[i].name != n
  }

  /** The number of tasks in `s` named `n`. */
  function Count(s: seq<TaskValue>, n: string): (c: nat)
    ensures c <= |s|
  {
    if s == [] then 0
    else (if s[0].name == n then 1 else 0) + Count(s[1..], n)
  }

  /** No task has the name exactly when the count is zero. */
  lemma {:induction false} CountZero(s: seq<TaskValue>, n: string)
    ensures Count(s, n) == 0 <==> Absent(s, n)
  {
    if s != [] {
      CountZero(s[1..], n);
      assert forall i :: 1 <= i < |s| ==> s[i] == s[1..][i - 1];
    }
  }

  /** Counting distributes over concatenation. */
  lemma {:induction false} CountAppend(a: seq<TaskValue>, b: seq<TaskValue>, n: string)
    ensures Count(a + b, n) == Count(a, n) + Count(b, n)
  {
    if a == [] {
      assert a + b == b;
    } else {
      assert (a + b)[0] == a[0] && (a + b)[1..] == a[1..] + b;
      CountAppend(a[1..], b, n);
    }
  }

  /** Linear scan in insertion order: the first task named `n`, if any. */
  function FindFirst(s: seq<TaskValue>, n: string): (r: Option<nat>)
    ensures r.Some? ==> IsFirstMatch(s, n, r.value)
    ensures r.None? <==> Absent(s, n)
  {
    if s == [] then None
    else if s[0].name == n then Some(0)
    else match FindFirst(s[1..], n)
      case None => None
      case Some(i) => Some(i + 1)
  }

  /** `s` with every task named `n` taken out, survivors in their original order. */
  function Without(s: seq<TaskValue>, n: string): seq<TaskValue>
  {
    if s == [] then []
    else if s[0].name == n then Without(s[1..], n)
    else [s[0]] + Without(s[1..], n)
  }

  /** No task with the name survives removal. */
  lemma {:induction false} WithoutAbsent(s: seq<TaskValue>, n: string)
    ensures Absent(Without(s, n), n)
  {
    if s != [] {
      WithoutAbsent(s[1..], n);
    }
  }

  /** Removing a name no task has leaves the list as it was. */
  lemma {:induction false} WithoutUnchanged(s: seq<TaskValue>, n: string)
    requires Absent(s, n)
    ensures Without(s, n) == s
  {
    if s != [] {
      assert s[0].name != n;
      WithoutUnchanged(s[1..], n);
      assert s == [s[0]] + s[1..];
    }
  }

  /** Removal shortens the list by exactly the number of tasks with the name. */
  lemma {:induction false} WithoutLength(s: seq<TaskValue>, n: string)
    ensures |Without(s, n)| == |s| - Count(s, n)
  {
    if s != [] {
      WithoutLength(s[1..], n);
    }
  }

  /** `s` with the status of its first task named `n` overwritten by `st`. */
  function SetFirstStatus(s: seq<TaskValue>, n: string, st: TaskStatus): (r: seq<TaskValue>)
    ensures |r| == |s|
    ensures forall i :: 0 <= i < |s| ==> r[i].name == s[i].name
    ensures forall i :: IsFirstMatch(s, n, i) ==> r[i].status == st
    ensures forall i :: 0 <= i < |s| && !IsFirstMatch(s, n, i) ==> r[i] == s[i]
    ensures Absent(s, n) ==> r == s
  {
    match FindFirst(s, n)
    case None => s
    case Some(k) => s[k := TaskValue(s[k].name, st)]
  }

  /** Removal distributes over concatenation: it keeps relative order. */
  /** Filtering a sequence with a known first task keeps or drops that task. */
  lemma WithoutCons(x: TaskValue, s: seq<TaskValue>, n: string)
    ensures Without([x] + s, n) == (if x.name == n then [] else [x]) + Without(s, n)
  {
    assert ([x] + s)[0] == x && ([x] + s)[1..] == s;
  }

  lemma {:induction false} WithoutAppend(a: seq<TaskValue>, b: seq<TaskValue>, n: string)
    ensures Without(a + b, n) == Without(a, n) + Without(b, n)
  {
    if a == [] {
      assert a + b == b;
    } else {
      var x, t := a[0], a[1..];
      var h := if x.name == n then [] else [x];
      calc {
        Without(a + b, n);
      == { assert a + b == [x] + (t + b); }
        Without([x] + (t + b), n);
      == { WithoutCons(x, t + b, n); }
        h + Without(t + b, n);
      == { WithoutAppend(t, b, n); }
        h + (Without(t, n) + Without(b, n));
      ==
        (h + Without(t, n)) + Without(b, n);
      == { WithoutCons(x, t, n); assert a == [x] + t; }
        Without(a, n) + Without(b, n);
      }
    }
  }

  /** Filtering a prefix one element longer keeps or drops just that element. */
  lemma WithoutSnoc(s: seq<TaskValue>, i: nat, n: string)
    requires i < |s|
    ensures Without(s[..i + 1], n) == Without(s[..i], n) + (if s[i].name == n then [] else [s[i]])
  {
    assert s[..i + 1] == s[..i] + [s[i]];
    WithoutAppend(s[..i], [s[i]], n);
  }

  /** Removal drops exactly the tasks named `n` and keeps every other task with its multiplicity. */
  lemma {:induction false} WithoutMultiset(s: seq<TaskValue>, n: string, x: TaskValue)
    ensures multiset(Without(s, n))[x] == if x.name == n then 0 else multiset(s)[x]
  {
    if s != [] {
      WithoutMultiset(s[1..], n, x);
      assert s == [s[0]] + s[1..];
    }
  }

  /** After removal, lookup of the removed name finds nothing. */
  lemma RemovedNotFound(s: seq<TaskValue>, n: string)
    ensures FindFirst(Without(s, n), n) == None
  {
    WithoutAbsent(s, n);
  }

  /** Removing twice is the same as removing once. */
  lemma RemoveIdempotent(s: seq<TaskValue>, n: string)
    ensures Without(Without(s, n), n) == Without(s, n)
  {
    WithoutAbsent(s, n);
    WithoutUnchanged(Without(s, n), n);
  }

  /**
   * Appending never changes which task a name that is already present finds:
   * a later duplicate is shadowed by the earlier task.
   */
  lemma FindFirstAppend(s: seq<TaskValue>, x: TaskValue, n: string)
    ensures FindFirst(s + [x], n) ==
      if !Absent(s, n) then FindFirst(s, n)
      else if x.name == n then Some(|s|)
      else None
  {
    var t := s + [x];
    if !Absent(s, n) {
      var k := FindFirst(s, n).value;
      assert IsFirstMatch(t, n, k);
      match FindFirst(t, n)
      case Some(j) =>
        assert !(j < k) && !(k < j);
    } else {
      assert forall j :: 0 <= j < |s| ==> t[j].name != n;
      if x.name == n {
        assert IsFirstMatch(t, n, |s|);
      } else {
        assert Absent(t, n);
      }
    }
  }

  /** Setting the first match's status twice keeps only the last value. */
  lemma SetFirstStatusLastWins(s: seq<TaskValue>, n: string, a: TaskStatus, b: TaskStatus)
    ensures SetFirstStatus(SetFirstStatus(s, n, a), n, b) == SetFirstStatus(s, n, b)
  {
  }

  /** Each status mutator is idempotent. */
  lemma SetFirstStatusIdempotent(s: seq<TaskValue>, n: string, st: TaskStatus)
    ensures SetFirstStatus(SetFirstStatus(s, n, st), n, st) == SetFirstStatus(s, n, st)
  {
    SetFirstStatusLastWins(s, n, st, st);
  }
}
