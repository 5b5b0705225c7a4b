/** Session chips stored as one comma-separated text: exactly when they come back. */
module StoredChips {
  import opened PyText
  import opened SessionLabels

  function Join(labels: seq<string>): string {
    if labels == [] then ""
    else if |labels| == 1 then labels[0]
    else labels[0] + "," + Join(labels[1..])
  }

  lemma {:induction false} JoinAppends(labels: seq<string>, l: string)
    ensures Join([]) == "" && Join([l]) == l
    ensures labels != [] ==> Join(labels + [l]) == Join(labels) + "," + l
  {
    if |labels| == 1 {
      assert (labels + [l])[1..] == [l];
    } else if labels != [] {
      JoinAppends(labels[1..], l);
      assert (labels + [l])[1..] == labels[1..] + [l];
    }
  }

  /** The parts between commas that are not empty. */
  function Parse(raw: string): seq<string>
    decreases |raw|
  {
    var k := Find(raw, ',');
    (if k == 0 then [] else [raw[..k]]) + if k == |raw| then [] else Parse(raw[k + 1..])
  }

  lemma {:induction false} PartsHaveNoComma(raw: string)
    ensures forall p :: p in Parse(raw) ==> p != "" && ',' !in p
    decreases |raw|
  {
    var k := Find(raw, ',');
    if k < |raw| {
      PartsHaveNoComma(raw[k + 1..]);
    }
  }

  lemma CommaAt(raw: string, a: string, rest: string)
    requires raw == a + rest && ',' !in a && (rest == "" || rest[0] == ',')
    ensures Find(raw, ',') == |a| && raw[..|a|] == a
  {
    assert forall j :: 0 <= j < |a| ==> raw[j] == a[j] && a[j] in a;
    assert rest != "" ==> raw[|a|] == ',';
  }

  lemma ParseCommaFree(a: string)
    requires ',' !in a
    ensures Parse(a) == if a == "" then [] else [a]
  {
    CommaAt(a, a, "");
  }

  function Part(p: string): seq<string> {
    if p == "" then [] else [p]
  }

  /** The parts of a text with a first comma at `k`. */
  lemma ParseAt(raw: string, k: nat)
    requires FirstComma(raw, k)
    ensures Parse(raw) == Part(raw[..k]) + Parse(raw[k + 1..])
  {
    assert Find(raw, ',') == k;
  }

  predicate FirstComma(raw: string, k: nat) {
    k < |raw| && raw[k] == ',' && forall j :: 0 <= j < k ==> raw[j] != ','
  }

  lemma CutInside(a: string, b: string, k: nat)
    requires FirstComma(a, k)
    ensures var raw := a + "," + b;
            FirstComma(raw, k) && raw[..k] == a[..k] && raw[k + 1..] == a[k + 1..] + "," + b
  {
  }

  lemma CutAfter(a: string, b: string)
    requires ',' !in a
    ensures var raw := a + "," + b; FirstComma(raw, |a|) && raw[..|a|] == a && raw[|a| + 1..] == b
  {
    assert forall j :: 0 <= j < |a| ==> (a + "," + b)[j] == a[j] && a[j] in a;
  }

  lemma ParseAfter(a: string, b: string)
    requires ',' !in a
    ensures Parse(a + "," + b) == Parse(a) + Parse(b)
  {
    CutAfter(a, b);
    ParseAt(a + "," + b, |a|);
    ParseCommaFree(a);
  }

  lemma ParseInside(a: string, b: string, k: nat)
    requires FirstComma(a, k)
    ensures Parse(a) == Part(a[..k]) + Parse(a[k + 1..])
    ensures Parse(a + "," + b) == Part(a[..k]) + Parse(a[k + 1..] + "," + b)
  {
    CutInside(a, b, k);
    ParseAt(a, k);
    ParseAt(a + "," + b, k);
  }

  lemma Regroup(whole: seq<string>, all: seq<string>, head: seq<string>, a: seq<string>, b: seq<string>)
    requires whole == head + (a + b) && all == head + a
    ensures whole == all + b
  {
  }

  lemma {:induction false} ParseConcat(a: string, b: string)
    ensures Parse(a + "," + b) == Parse(a) + Parse(b)
    decreases |a|
  {
    if ',' in a {
      var k := Find(a, ',');
      ParseInside(a, b, k);
      ParseConcat(a[k + 1..], b);
      Regroup(Parse(a + "," + b), Parse(a), Part(a[..k]), Parse(a[k + 1..]), Parse(b));
    } else {
      ParseAfter(a, b);
    }
  }

  /** The parts of all labels, label by label. */
  function Parts(labels: seq<string>): seq<string> {
    if labels == [] then [] else Parse(labels[0]) + Parts(labels[1..])
  }

  lemma {:induction false} ParseJoin(labels: seq<string>)
    ensures Parse(Join(labels)) == Parts(labels)
  {
    if |labels| == 1 {
      assert Parts(labels[1..]) == [];
    } else if labels != [] {
      ParseConcat(labels[0], Join(labels[1..]));
      ParseJoin(labels[1..]);
    }
  }

  predicate OnlyCommas(l: string) {
    forall c :: c in l ==> c == ','
  }

  lemma {:induction false} PartsOfCommas(l: string)
    ensures Parse(l) == [] <==> OnlyCommas(l)
    decreases |l|
  {
    var k := Find(l, ',');
    if k == 0 && k < |l| {
      assert forall c :: c in l <==> c == ',' || c in l[1..];
      PartsOfCommas(l[1..]);
    } else if k > 0 {
      assert l[0] in l;
    }
  }

  // ---------------------------------------------------------------- what comes back

  /** The labels that come back from the text alone. */
  function Kept(labels: seq<string>): seq<string> {
    if labels == [] then [] else (if ',' in labels[0] then [] else [labels[0]]) + Kept(labels[1..])
  }

  lemma {:induction false} KeptMembers(labels: seq<string>, x: string)
    ensures x in Kept(labels) <==> x in labels && ',' !in x
  {
    if labels != [] {
      KeptMembers(labels[1..], x);
    }
  }

  lemma {:induction false} KeptOrdered(arrivals: seq<string>, labels: seq<string>)
    requires NewestFirst(arrivals, labels)
    ensures NewestFirst(arrivals, Kept(labels))
  {
    if labels != [] {
      NewestFirstTail(arrivals, labels);
      KeptOrdered(arrivals, labels[1..]);
      forall x | x in Kept(labels[1..])
        ensures LastArrival(arrivals, labels[0]) > LastArrival(arrivals, x)
      {
        KeptMembers(labels[1..], x);
        HeadIsNewest(arrivals, labels, x);
      }
    }
  }

  lemma {:induction false} PartsAreKept(labels: seq<string>)
    requires forall l :: l in labels ==> l != "" && (',' !in l || OnlyCommas(l))
    ensures Parts(labels) == Kept(labels)
  {
    if labels != [] {
      var l := labels[0];
      assert l in labels;
      if ',' in l {
        PartsOfCommas(l);
      } else {
        ParseCommaFree(l);
      }
      assert forall x :: x in labels[1..] ==> x in labels;
      PartsAreKept(labels[1..]);
    }
  }

  /** A label with a comma comes back only as one of the arrivals heard again, and leaves no part of it behind only
      if it is nothing but commas. */
  ghost predicate Restorable(labels: seq<string>, heard: seq<string>) {
    forall l :: l in labels && ',' in l ==> OnlyCommas(l) && l in heard
  }

  lemma RestorableComesBack(older: seq<string>, newer: seq<string>, labels: seq<string>)
    requires ByLastArrival(older + newer, labels) && "" !in labels && Restorable(labels, newer)
    ensures Replay(Parse(Join(labels)), newer) == labels
  {
    ParseJoin(labels);
    PartsAreKept(labels);
    KeptOrdered(older + newer, labels);
    forall x ensures x in Kept(labels) <==> x in labels && ',' !in x {
      KeptMembers(labels, x);
    }
    AgainIsNothingNew(older, newer, labels, Kept(labels));
  }

  // ---------------------------------------------------------------- what does not

  function Count(s: seq<string>, x: string): nat {
    if s == [] then 0 else (if s[0] == x then 1 else 0) + Count(s[1..], x)
  }

  lemma {:induction false} CountConcat(a: seq<string>, b: seq<string>, x: string)
    ensures Count(a + b, x) == Count(a, x) + Count(b, x)
  {
    if a == [] {
      assert a + b == b;
    } else {
      assert (a + b)[1..] == a[1..] + b;
      CountConcat(a[1..], b, x);
    }
  }

  lemma {:induction false} CountOfMember(s: seq<string>, x: string)
    ensures Count(s, x) >= 1 <==> x in s
  {
    if s != [] {
      CountOfMember(s[1..], x);
    }
  }

  lemma {:induction false} RemoveFirstCounts(labels: seq<string>, name: string, x: string)
    ensures Count(labels, x) <= Count(RemoveFirst(labels, name), x) + if x == name then 1 else 0
  {
    if labels != [] && labels[0] != name {
      RemoveFirstCounts(labels[1..], name, x);
    }
  }

  /** Replaying loses nothing. */
  lemma {:induction false} ReplayCounts(labels: seq<string>, arrivals: seq<string>, x: string)
    ensures Count(labels, x) <= Count(Replay(labels, arrivals), x)
  {
    if arrivals != [] {
      var front, last := arrivals[..|arrivals| - 1], arrivals[|arrivals| - 1];
      ReplayCounts(labels, front, x);
      RemoveFirstCounts(Replay(labels, front), last, x);
      assert MoveToFront(Replay(labels, front), last)[1..] == RemoveFirst(Replay(labels, front), last);
    }
  }

  /** How often `p` is a part of some label. */
  lemma {:induction false} PartsCount(labels: seq<string>, i: nat, p: string)
    requires i < |labels| && p in Parse(labels[i])
    ensures Count(Parts(labels), p) >= 1
  {
    CountConcat(Parse(labels[0]), Parts(labels[1..]), p);
    if i > 0 {
      PartsCount(labels[1..], i - 1, p);
    } else {
      CountOfMember(Parse(labels[0]), p);
    }
  }

  lemma {:induction false} PartsCountTwice(labels: seq<string>, i: nat, j: nat, p: string)
    requires i < j < |labels| && p in Parse(labels[i]) && p in Parse(labels[j])
    ensures Count(Parts(labels), p) >= 2
  {
    CountConcat(Parse(labels[0]), Parts(labels[1..]), p);
    if i > 0 {
      PartsCountTwice(labels[1..], i - 1, j - 1, p);
    } else {
      PartsCount(labels[1..], j - 1, p);
      CountOfMember(Parse(labels[0]), p);
    }
  }

  lemma {:induction false} OrderedOnce(arrivals: seq<string>, labels: seq<string>, x: string)
    requires NewestFirst(arrivals, labels)
    ensures Count(labels, x) <= 1
  {
    if labels != [] {
      NewestFirstTail(arrivals, labels);
      OrderedOnce(arrivals, labels[1..], x);
      CountOfMember(labels[1..], labels[0]);
    }
  }

  /** A part of a label with a comma turns up once too often. */
  lemma PartIsTooMuch(arrivals: seq<string>, labels: seq<string>, i: nat) returns (p: string)
    requires NewestFirst(arrivals, labels) && i < |labels| && ',' in labels[i] && !OnlyCommas(labels[i])
    ensures Count(Parts(labels), p) > Count(labels, p)
  {
    PartsOfCommas(labels[i]);
    PartsHaveNoComma(labels[i]);
    p := Parse(labels[i])[0];
    assert p in Parse(labels[i]);
    PartsCount(labels, i, p);
    CountOfMember(labels, p);
    OrderedOnce(arrivals, labels, p);
    if p in labels {
      var j :| 0 <= j < |labels| && labels[j] == p;
      ParseCommaFree(p);
      PartsCountTwice(labels, if i < j then i else j, if i < j then j else i, p);
    }
  }

  /** The chips come back exactly if every label with a comma is nothing but commas and is heard again. */
  lemma ComesBackIff(older: seq<string>, newer: seq<string>, labels: seq<string>)
    requires ByLastArrival(older + newer, labels) && "" !in labels
    ensures Replay(Parse(Join(labels)), newer) == labels <==> Restorable(labels, newer)
  {
    if Restorable(labels, newer) {
      RestorableComesBack(older, newer, labels);
      return;
    }
    var l :| l in labels && ',' in l && !(OnlyCommas(l) && l in newer);
    var i :| 0 <= i < |labels| && labels[i] == l;
    ParseJoin(labels);
    if OnlyCommas(l) {
      PartsHaveNoComma(Join(labels));
      ReplayMembers(Parse(Join(labels)), newer, l);
    } else {
      var p := PartIsTooMuch(older + newer, labels, i);
      ReplayCounts(Parse(Join(labels)), newer, p);
    }
  }
}
