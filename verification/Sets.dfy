/** Finite sets. */
module Sets {

  lemma Member<T>(s: set<T>) returns (x: T)
    requires s != {}
    ensures x in s
  {
    x :| x in s;
  }

  function Elements<T>(s: seq<T>): set<T> {
    set x | x in s
  }

  lemma NoElements<T>()
    ensures Elements<T>([]) == {}
  {
  }

  lemma ElementsAppend<T>(s: seq<T>, x: T)
    ensures Elements(s + [x]) == Elements(s) + {x}
  {
  }

  lemma ElementsConcat<T>(s: seq<T>, r: seq<T>)
    ensures Elements(s + r) == Elements(s) + Elements(r)
  {
  }

  ghost predicate NoRepeats<T(!new)>(s: seq<T>) {
    forall i, j | 0 <= i < j < |s| :: s[i] != s[j]
  }

  lemma NoRepeatsAppend<T(!new)>(s: seq<T>, x: T)
    requires NoRepeats(s) && x !in s
    ensures NoRepeats(s + [x])
  {
  }

  lemma NoRepeatsConcat<T(!new)>(s: seq<T>, r: seq<T>)
    requires NoRepeats(s) && NoRepeats(r) && Elements(s) !! Elements(r)
    ensures NoRepeats(s + r)
  {
    forall i, j | 0 <= i < |s| && 0 <= j < |r|
      ensures s[i] != r[j]
    {
      assert s[i] in Elements(s) && r[j] in Elements(r);
    }
  }
}
