/** Escaping by backslashes, said by position: a character is escaped if an odd number of backslashes stands right
    before it. The scanners that skip two characters at a backslash are measured against this. */
module Escapes {

  /** Length of the run of backslashes that ends right before `p` and does not reach back beyond `from`. */
  function Slashes(s: string, from: nat, p: nat): nat
    requires p <= |s|
  {
    if from < p && s[p - 1] == '\\' then 1 + Slashes(s, from, p - 1) else 0
  }

  predicate Escaped(s: string, from: nat, p: nat)
    requires p <= |s|
  {
    Slashes(s, from, p) % 2 == 1
  }

  /** After a character that is not escaped, the next one is escaped exactly if that one is a backslash. */
  lemma StepOver(s: string, from: nat, p: nat)
    requires from <= p < |s| && !Escaped(s, from, p)
    ensures Escaped(s, from, p + 1) <==> s[p] == '\\'
    ensures p + 2 <= |s| && s[p] == '\\' ==> !Escaped(s, from, p + 2)
  {
    if p + 2 <= |s| && s[p] == '\\' {
      assert Slashes(s, from, p + 2) == if s[p + 1] == '\\' then 2 + Slashes(s, from, p) else 0;
    }
  }

  /** Every marked position of [i, j) is escaped. */
  ghost predicate NoneFree(s: string, from: nat, i: nat, j: nat, mark: nat -> bool)
    requires j <= |s|
  {
    forall p :: i <= p < j && mark(p) ==> Escaped(s, from, p)
  }

  /** `e` is past the first mark at or after `i` that is not escaped, or the end of the text if there is none. */
  ghost predicate EndsAtFirst(s: string, from: nat, i: nat, e: nat, width: nat, mark: nat -> bool) {
    || (i + width <= e <= |s| && mark(e - width) && !Escaped(s, from, e - width) && NoneFree(s, from, i, e - width, mark))
    || (e == |s| && NoneFree(s, from, i, |s|, mark))
  }

  /** What holds from the next position a scanner looks at holds from this one. */
  lemma LookBack(s: string, from: nat, i: nat, e: nat, width: nat, mark: nat -> bool)
    requires from <= i < |s| && !Escaped(s, from, i) && !mark(i)
    requires s[i] == '\\' ==> if i + 2 <= |s| then EndsAtFirst(s, from, i + 2, e, width, mark) else e == |s|
    requires s[i] != '\\' ==> EndsAtFirst(s, from, i + 1, e, width, mark)
    ensures EndsAtFirst(s, from, i, e, width, mark)
  {
    StepOver(s, from, i);
  }
}
