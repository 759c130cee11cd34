/** Option and Result, the two failure-carrying types the model needs, and
    the values present in a sequence of options. */
module Wrappers {

  datatype Option<+T> = None | Some(value: T) {

    /** The value as a sequence of zero or one elements. */
    function ToSeq(): seq<T> {
      if Some? then [value] else []
    }
  }

  datatype Result<+R, +E> = Ok(value: R) | Err(error: E)

  /** Concatenation regrouped, which the solver otherwise finds only by
      comparing elements. */
  lemma AppendAssoc<T>(a: seq<T>, b: seq<T>, c: seq<T>)
    ensures a + (b + c) == (a + b) + c
  {
  }

  /** The values of the `Some` entries, in order. */
  function Somes<T>(os: seq<Option<T>>): seq<T> {
    if os == [] then [] else Somes(os[..|os| - 1]) + os[|os| - 1].ToSeq()
  }

  lemma SomesSnoc<T>(os: seq<Option<T>>, o: Option<T>)
    ensures Somes(os + [o]) == Somes(os) + o.ToSeq()
  {
    assert (os + [o])[..|os|] == os;
  }

  lemma SomesPrefix<T>(os: seq<Option<T>>, i: nat)
    requires i < |os|
    ensures Somes(os[..i + 1]) == Somes(os[..i]) + os[i].ToSeq()
  {
    assert os[..i + 1] == os[..i] + [os[i]];
    SomesSnoc(os[..i], os[i]);
  }

  /** Every value kept comes from an entry, and every entry's value is kept. */
  lemma {:induction false} SomesMembers<T>(os: seq<Option<T>>)
    ensures |Somes(os)| <= |os|
    ensures forall x :: x in Somes(os) <==> exists j :: 0 <= j < |os| && os[j] == Some(x)
  {
    if os != [] {
      var init := os[..|os| - 1];
      SomesMembers(init);
      forall x ensures x in Somes(os) <==> exists j :: 0 <= j < |os| && os[j] == Some(x) {
        if x in Somes(init) {
          var j :| 0 <= j < |init| && init[j] == Some(x);
          assert os[j] == Some(x);
        }
        if j :| 0 <= j < |os| && os[j] == Some(x) {
          if j < |os| - 1 {
            assert init[j] == Some(x);
          }
        }
      }
    }
  }

  /** Keeping the values of two blocks is keeping each in turn. */
  lemma {:induction false} SomesAppend<T>(a: seq<Option<T>>, b: seq<Option<T>>)
    ensures Somes(a + b) == Somes(a) + Somes(b)
    decreases |b|
  {
    if b == [] {
      assert a + b == a;
    } else {
      var b', last := b[..|b| - 1], b[|b| - 1];
      assert a + b == (a + b') + [last];
      SomesAppend(a, b');
      SomesSnoc(a + b', last);
      SomesSnoc(b', last);
      AppendAssoc(Somes(a), Somes(b'), last.ToSeq());
    }
  }
}
