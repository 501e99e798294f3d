/** The usual optional value, used for "absent" results such as "no index found". */
module Options {
  datatype Option<+T> = None | Some(value: T)

  /** The values held by the `Some`s of `os`, in order; the `None`s are skipped. */
  function Somes<T>(os: seq<Option<T>>): seq<T> {
    if os == [] then []
    else Somes(os[..|os| - 1]) + (if os[|os| - 1].Some? then [os[|os| - 1].value] else [])
  }

  /** Skipping `None`s keeps order: it distributes over concatenation. */
  lemma {:induction false} SomesAppend<T>(a: seq<Option<T>>, b: seq<Option<T>>)
    ensures Somes(a + b) == Somes(a) + Somes(b)
    decreases |b|
  {
    if b == [] {
      assert a + b == a;
    } else {
      assert (a + b)[..|a + b| - 1] == a + b[..|b| - 1];
      SomesAppend(a, b[..|b| - 1]);
    }
  }

  /** At most one value per entry. */
  lemma {:induction false} SomesLength<T>(os: seq<Option<T>>)
    ensures |Somes(os)| <= |os|
  {
    if os != [] {
      SomesLength(os[..|os| - 1]);
    }
  }

  /** The values are exactly those held by some entry. */
  lemma {:induction false} SomesMembers<T>(os: seq<Option<T>>, x: T)
    ensures x in Somes(os) <==> Some(x) in os
  {
    if os != [] {
      var init := os[..|os| - 1];
      SomesMembers(init, x);
      assert os == init + [os[|os| - 1]];
    }
  }
}
