/**
 * The contact fields of main.py `extract_contact_info`: the e-mail addresses and phone numbers
 * found in the text, each list passed through `list(set(...))` to drop repetitions.
 */
module Contact {

  ghost predicate NoDuplicates<T>(s: seq<T>) {
    forall i, j :: 0 <= i < j < |s| ==> s[i] != s[j]
  }

  ghost function Elems<T>(s: seq<T>): set<T> {
    set x | x in s
  }

  /**
   * `list(set(s))`: each element of `s` once. Python lists a set in an order of its own; this
   * model keeps first occurrences in order, and `ListOfSetIsPermutation` shows that every
   * other order is a permutation of this one.
   */
  function Distinct<T(==,!new)>(s: seq<T>): (r: seq<T>)
    ensures NoDuplicates(r)
    ensures forall x :: x in r <==> x in s
    ensures |r| <= |s|
  {
    if s == [] then []
    else
      var init := s[..|s| - 1];
      var x := s[|s| - 1];
      assert s == init + [x];
      var r := Distinct(init);
      if x in r then r else r + [x]
  }

  /** A list without repetitions has as many elements as its set. */
  lemma {:induction false} NoDuplicatesCount<T>(s: seq<T>)
    requires NoDuplicates(s)
    ensures |Elems(s)| == |s|
  {
    if s != [] {
      var init := s[..|s| - 1];
      var x := s[|s| - 1];
      assert s == init + [x];
      assert x !in init;
      NoDuplicatesCount(init);
      assert Elems(s) == Elems(init) + {x};
    }
  }

  /** The deduplicated list is exactly as long as the number of distinct matches. */
  lemma DistinctCount<T(!new)>(s: seq<T>)
    ensures |Distinct(s)| == |Elems(s)|
  {
    NoDuplicatesCount(Distinct(s));
    assert Elems(Distinct(s)) == Elems(s);
  }

  /** Matches that are already distinct are kept as they are. */
  lemma {:induction false} DistinctOfDistinct<T(!new)>(s: seq<T>)
    requires NoDuplicates(s)
    ensures Distinct(s) == s
  {
    if s != [] {
      var init := s[..|s| - 1];
      var x := s[|s| - 1];
      DistinctOfDistinct(init);
      assert x !in init;
      assert s == init + [x];
    }
  }

  /** Deduplicating twice is deduplicating once. */
  lemma DistinctIdempotent<T(!new)>(s: seq<T>)
    ensures Distinct(Distinct(s)) == Distinct(s)
  {
    DistinctOfDistinct(Distinct(s));
  }

  /** In a list without repetitions each element occurs once. */
  lemma {:induction false} NoDuplicatesMultiset<T>(s: seq<T>, x: T)
    requires NoDuplicates(s)
    ensures multiset(s)[x] == if x in s then 1 else 0
  {
    if s != [] {
      var init := s[..|s| - 1];
      var y := s[|s| - 1];
      assert s == init + [y];
      assert y !in init;
      NoDuplicatesMultiset(init, x);
    }
  }

  /**
   * Whatever order Python lists the set in, the result holds the same elements, each once:
   * any list without repetitions that has the elements of `s` is a permutation of `Distinct(s)`.
   */
  lemma ListOfSetIsPermutation<T(!new)>(s: seq<T>, r: seq<T>)
    requires NoDuplicates(r) && forall x :: x in r <==> x in s
    ensures multiset(r) == multiset(Distinct(s))
  {
    forall x ensures multiset(r)[x] == multiset(Distinct(s))[x] {
      NoDuplicatesMultiset(r, x);
      NoDuplicatesMultiset(Distinct(s), x);
    }
  }

  datatype ContactInfo = ContactInfo(emails: seq<string>, phoneNumbers: seq<string>)

  /**
   * main.py `extract_contact_info`, lines 235-245, given the lists of all matches of the
   * e-mail and phone patterns: each field lists every match once and nothing else.
   */
  function ExtractContactInfo(emailMatches: seq<string>, phoneMatches: seq<string>): (c: ContactInfo)
    ensures NoDuplicates(c.emails) && forall e :: e in c.emails <==> e in emailMatches
    ensures NoDuplicates(c.phoneNumbers) && forall p :: p in c.phoneNumbers <==> p in phoneMatches
  {
    ContactInfo(Distinct(emailMatches), Distinct(phoneMatches))
  }
}
