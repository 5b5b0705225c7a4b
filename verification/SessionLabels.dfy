/** Session labels: taken from a message, and kept most recent first. */
module SessionLabels {
  import opened PyText

  const UNLABELED := "(unlabeled)"
  const ALL := "__all__"

  /** The bracketed prefix of a message, if there is a non-empty one. */
  function ExtractLabel(message: string): (name: string)
    ensures name != ""
  {
    if message == "" || message[0] != '[' then UNLABELED
    else
      var k := Find(message, ']', 1);
      if k < |message| && k > 1 then message[1..k] else UNLABELED
  }

  /** The label is what stands between an opening bracket at the start and the next closing bracket, if that is not
      nothing; any other message is unlabelled. */
  lemma LabelIs(message: string, k: nat)
    ensures 2 <= k < |message| && message[0] == '[' && message[k] == ']' && ']' !in message[1..k] ==>
              ExtractLabel(message) == message[1..k]
    ensures (message == "" || message[0] != '[' || (1 < |message| && message[1] == ']') || ']' !in message[1..]) ==>
              ExtractLabel(message) == "(unlabeled)"
  {
    if message != "" && message[0] == '[' {
      var e := Find(message, ']', 1);
      assert e < |message| ==> message[1..][e - 1] == ']';
      if 2 <= k < |message| && message[k] == ']' && ']' !in message[1..k] {
        assert forall j :: 1 <= j < k ==> message[j] == message[1..k][j - 1];
      }
    }
  }

  /** What the sending side prepends is what is extracted. */
  lemma LabelRoundTrip(name: string, body: string)
    requires name != "" && ']' !in name
    ensures ExtractLabel("[" + name + "] " + body) == name
  {
    var m := "[" + name + "] " + body;
    var k := Find(m, ']', 1);
    assert m[|name| + 1] == ']';
    assert forall j :: 1 <= j <= |name| ==> m[j] == name[j - 1];
    assert k == |name| + 1;
    assert m[1..k] == name;
  }

  // ---------------------------------------------------------------- most recent first

  function RemoveFirst(labels: seq<string>, name: string): seq<string> {
    if labels == [] then []
    else if labels[0] == name then labels[1..]
    else [labels[0]] + RemoveFirst(labels[1..], name)
  }

  function MoveToFront(labels: seq<string>, name: string): seq<string> {
    [name] + RemoveFirst(labels, name)
  }

  lemma {:induction false} NothingToRemove(labels: seq<string>, name: string)
    requires name !in labels
    ensures RemoveFirst(labels, name) == labels
  {
    if labels != [] {
      NothingToRemove(labels[1..], name);
    }
  }

  lemma {:induction false} RemovedAt(labels: seq<string>, name: string, p: nat)
    requires p < |labels| && labels[p] == name && forall j :: 0 <= j < p ==> labels[j] != name
    ensures RemoveFirst(labels, name) == labels[..p] + labels[p + 1..]
  {
    if p > 0 {
      RemovedAt(labels[1..], name, p - 1);
      assert labels[..p] == [labels[0]] + labels[1..][..p - 1];
    }
  }

  /** The order of the labels after the arrivals, oldest first. */
  function Replay(labels: seq<string>, arrivals: seq<string>): seq<string> {
    if arrivals == [] then labels
    else MoveToFront(Replay(labels, arrivals[..|arrivals| - 1]), arrivals[|arrivals| - 1])
  }

  lemma {:induction false} RemoveFirstKeeps(labels: seq<string>, name: string, x: string)
    ensures x in RemoveFirst(labels, name) ==> x in labels
    ensures x in labels && x != name ==> x in RemoveFirst(labels, name)
  {
    if labels != [] && labels[0] != name {
      RemoveFirstKeeps(labels[1..], name, x);
    }
  }

  lemma MoveToFrontMembers(labels: seq<string>, name: string, x: string)
    ensures x in MoveToFront(labels, name) <==> x == name || x in labels
  {
    RemoveFirstKeeps(labels, name, x);
  }

  /** Where `x` arrived last, or -1. */
  function LastArrival(arrivals: seq<string>, x: string): (k: int)
    ensures -1 <= k < |arrivals| && (k >= 0 ==> arrivals[k] == x)
    ensures k == -1 <==> x !in arrivals
  {
    if arrivals == [] then -1
    else if arrivals[|arrivals| - 1] == x then |arrivals| - 1
    else LastArrival(arrivals[..|arrivals| - 1], x)
  }

  /** Each later label of the list arrived last before each earlier one. */
  ghost predicate NewestFirst(arrivals: seq<string>, labels: seq<string>) {
    forall i, j :: 0 <= i < j < |labels| ==> LastArrival(arrivals, labels[i]) > LastArrival(arrivals, labels[j])
  }

  /** The list holds exactly the labels that arrived, each once, ordered by last arrival. */
  ghost predicate ByLastArrival(arrivals: seq<string>, labels: seq<string>) {
    NewestFirst(arrivals, labels) && forall x :: x in labels <==> x in arrivals
  }

  lemma LastArrivalNext(arrivals: seq<string>, l: string, x: string)
    ensures LastArrival(arrivals + [l], x) == if x == l then |arrivals| else LastArrival(arrivals, x)
  {
    assert (arrivals + [l])[..|arrivals|] == arrivals;
  }

  lemma NewestFirstTail(arrivals: seq<string>, labels: seq<string>)
    requires labels != [] && NewestFirst(arrivals, labels)
    ensures NewestFirst(arrivals, labels[1..]) && labels[0] !in labels[1..]
  {
    assert forall j :: 0 <= j < |labels| - 1 ==> labels[1..][j] == labels[j + 1];
  }

  lemma HeadIsNewest(arrivals: seq<string>, labels: seq<string>, x: string)
    requires labels != [] && NewestFirst(arrivals, labels) && x in labels[1..]
    ensures LastArrival(arrivals, labels[0]) > LastArrival(arrivals, x)
  {
    var k :| 0 <= k < |labels| - 1 && labels[1..][k] == x;
    assert labels[k + 1] == x;
  }

  lemma {:induction false} RemoveFirstOrdered(arrivals: seq<string>, labels: seq<string>, name: string)
    requires NewestFirst(arrivals, labels)
    ensures NewestFirst(arrivals, RemoveFirst(labels, name)) && name !in RemoveFirst(labels, name)
  {
    if labels != [] {
      var tail := labels[1..];
      NewestFirstTail(arrivals, labels);
      RemoveFirstOrdered(arrivals, tail, name);
      var r := RemoveFirst(tail, name);
      forall j | 0 <= j < |r|
        ensures LastArrival(arrivals, labels[0]) > LastArrival(arrivals, r[j])
      {
        RemoveFirstKeeps(tail, name, r[j]);
        HeadIsNewest(arrivals, labels, r[j]);
      }
    }
  }

  /** Moving the arriving label to the front keeps the order by last arrival. */
  lemma MoveToFrontOrders(arrivals: seq<string>, labels: seq<string>, name: string)
    requires NewestFirst(arrivals, labels)
    ensures NewestFirst(arrivals + [name], MoveToFront(labels, name))
  {
    var after, r := arrivals + [name], RemoveFirst(labels, name);
    RemoveFirstOrdered(arrivals, labels, name);
    LastArrivalNext(arrivals, name, name);
    forall x | x in r
      ensures LastArrival(after, x) == LastArrival(arrivals, x)
    {
      LastArrivalNext(arrivals, name, x);
    }
  }

  /** The chips after an arrival. */
  lemma ArrivalOrders(arrivals: seq<string>, labels: seq<string>, name: string)
    requires ByLastArrival(arrivals, labels)
    ensures ByLastArrival(arrivals + [name], MoveToFront(labels, name))
  {
    MoveToFrontOrders(arrivals, labels, name);
    forall x ensures x in MoveToFront(labels, name) <==> x in arrivals + [name] {
      MoveToFrontMembers(labels, name, x);
    }
  }

  lemma {:induction false} ReplayMembers(labels: seq<string>, arrivals: seq<string>, x: string)
    ensures x in Replay(labels, arrivals) <==> x in labels || x in arrivals
  {
    if arrivals != [] {
      var front, last := arrivals[..|arrivals| - 1], arrivals[|arrivals| - 1];
      ReplayMembers(labels, front, x);
      MoveToFrontMembers(Replay(labels, front), last, x);
      assert arrivals == front + [last];
    }
  }

  lemma {:induction false} ReplayOrders(history: seq<string>, labels: seq<string>, arrivals: seq<string>)
    requires NewestFirst(history, labels)
    ensures NewestFirst(history + arrivals, Replay(labels, arrivals))
  {
    if arrivals == [] {
      assert history + arrivals == history;
    } else {
      var front, last := arrivals[..|arrivals| - 1], arrivals[|arrivals| - 1];
      ReplayOrders(history, labels, front);
      MoveToFrontOrders(history + front, Replay(labels, front), last);
      assert history + arrivals == history + front + [last];
    }
  }

  /** There is only one such list. */
  lemma {:induction false} OrderIsUnique(arrivals: seq<string>, a: seq<string>, b: seq<string>)
    requires NewestFirst(arrivals, a) && NewestFirst(arrivals, b) && forall x :: x in a <==> x in b
    ensures a == b
  {
    assert (a != [] ==> a[0] in b) && (b != [] ==> b[0] in a);
    if a != [] && b != [] {
      NewestFirstTail(arrivals, a);
      NewestFirstTail(arrivals, b);
      assert a[0] == b[0] by {
        var i :| 0 <= i < |b| && b[i] == a[0];
        var j :| 0 <= j < |a| && a[j] == b[0];
      }
      forall x ensures x in a[1..] <==> x in b[1..] {
        assert x in a <==> x == a[0] || x in a[1..];
        assert x in b <==> x == b[0] || x in b[1..];
      }
      OrderIsUnique(arrivals, a[1..], b[1..]);
    }
  }

  lemma {:induction false} LastArrivalConcat(a: seq<string>, b: seq<string>, x: string)
    ensures LastArrival(a + b, x) == if x in b then |a| + LastArrival(b, x) else LastArrival(a, x)
  {
    if b == [] {
      assert a + b == a;
    } else {
      assert (a + b)[..|a + b| - 1] == a + b[..|b| - 1];
      assert b == b[..|b| - 1] + [b[|b| - 1]];
      LastArrivalConcat(a, b[..|b| - 1], x);
    }
  }

  lemma SameOrderAgain(older: seq<string>, newer: seq<string>, labels: seq<string>)
    requires NewestFirst(older + newer, labels)
    ensures NewestFirst(older + newer + newer, labels)
  {
    var history := older + newer;
    forall i, j | 0 <= i < j < |labels|
      ensures LastArrival(history + newer, labels[i]) > LastArrival(history + newer, labels[j])
    {
      LastArrivalConcat(history, newer, labels[i]);
      LastArrivalConcat(history, newer, labels[j]);
      LastArrivalConcat(older, newer, labels[i]);
      LastArrivalConcat(older, newer, labels[j]);
    }
  }

  /** Hearing the newest arrivals again in the same order changes nothing, and brings back the labels among them
      that were lost. */
  lemma AgainIsNothingNew(older: seq<string>, newer: seq<string>, labels: seq<string>, kept: seq<string>)
    requires NewestFirst(older + newer, labels) && NewestFirst(older + newer, kept)
    requires forall x :: x in newer ==> x in labels
    requires forall x :: x in kept ==> x in labels
    requires forall x :: x in labels ==> x in kept || x in newer
    ensures Replay(kept, newer) == labels
  {
    SameOrderAgain(older, newer, labels);
    ReplayOrders(older + newer, kept, newer);
    forall x ensures x in Replay(kept, newer) <==> x in labels {
      ReplayMembers(kept, newer, x);
    }
    OrderIsUnique(older + newer + newer, Replay(kept, newer), labels);
  }
}
