/**
 * javax.usb.util.DefaultRequestBundle: an ordered list of Requests that can
 * be changed only while the bundle is not being submitted.
 *
 * Requests are compared with `==`, standing for Request.equals.  removeAll is
 * modelled twice: as its iterator loop is written, which does not empty the
 * bundle, and as documented, which recycle uses here.
 */
module DefaultRequestBundle {
  import opened Wrappers
  import opened UsbErrors

  /** List.indexOf: where the first element equal to `x` is, or the length if there is none. */
  function IndexOf<R(==)>(s: seq<R>, x: R): (i: nat)
    ensures i <= |s|
    ensures i < |s| ==> s[i] == x
    ensures forall j :: 0 <= j < i ==> s[j] != x
  {
    if s == [] then 0
    else if s[0] == x then 0
    else 1 + IndexOf(s[1..], x)
  }

  /** List.remove(Object): the first element equal to `x` is removed, if there is one. */
  function RemoveFirst<R(==)>(s: seq<R>, x: R): (r: seq<R>)
    ensures x !in s ==> r == s
    ensures x in s ==> exists i :: 0 <= i < |s| && s[i] == x && x !in s[..i] && r == s[..i] + s[i + 1..]
  {
    var i := IndexOf(s, x);
    if i == |s| then s else s[..i] + s[i + 1..]
  }

  /** remove(x) takes away one occurrence of x and nothing else. */
  lemma RemoveFirstMultiset<R>(s: seq<R>, x: R)
    ensures multiset(RemoveFirst(s, x)) == multiset(s) - multiset{x}
  {
    var i := IndexOf(s, x);
    if i < |s| {
      var before, after := s[..i], s[i + 1..];
      assert RemoveFirst(s, x) == before + after;
      SplitAround(s, i);
      MinusOne(multiset(before + after), x);
    } else {
      assert x !in multiset(s);
    }
  }

  lemma SplitAround<R>(s: seq<R>, i: nat)
    requires i < |s|
    ensures multiset(s) == multiset(s[..i] + s[i + 1..]) + multiset{s[i]}
  {
    assert s == s[..i] + [s[i]] + s[i + 1..];
  }

  lemma MinusOne<R>(m: multiset<R>, x: R)
    ensures (m + multiset{x}) - multiset{x} == m
  {
  }

  /** Removing the element at the front of the list removes exactly that one. */
  lemma RemoveFirstOfHead<R>(s: seq<R>)
    requires s != []
    ensures RemoveFirst(s, s[0]) == s[1..]
  {
  }

  /** The list removeAll's iterator loop leaves behind: all but the first Request. */
  function RemoveAllAsWrittenList<R>(s: seq<R>): seq<R> {
    if s == [] then s else s[1..]
  }

  /**
   * How removeAll's iterator loop ends: normally on an empty list or a list of
   * two, otherwise with the iterator's ConcurrentModificationException.
   */
  function RemoveAllAsWrittenOutcome<R>(s: seq<R>): Outcome<Exception> {
    if |s| == 0 || |s| == 2 then Pass else Fail(ConcurrentModificationException)
  }

  class DefaultRequestBundle<R(==)> {
    var list: seq<R>
    var inSubmission: bool

    /** A new, empty bundle that is not in submission. */
    constructor ()
      ensures list == [] && !inSubmission
    {
      list := [];
      inSubmission := false;
    }

    function IsInSubmission(): bool
      reads this
    {
      inSubmission
    }

    function Size(): (n: nat)
      reads this
      ensures n == |list|
    {
      |list|
    }

    function IsEmpty(): (empty: bool)
      reads this
      ensures empty <==> Size() == 0
    {
      list == []
    }

    /** add: refused while in submission; otherwise the Request goes at the end. */
    method Add(request: R) returns (r: Outcome<Exception>)
      modifies this`list
      ensures inSubmission ==> r == Fail(UsbRuntimeException) && list == old(list)
      ensures !inSubmission ==> r == Pass && list == old(list) + [request] && Size() == old(Size()) + 1
    {
      if IsInSubmission() {
        return Fail(UsbRuntimeException);
      }
      list := list + [request];
      r := Pass;
    }

    /** remove: refused while in submission; otherwise the first equal Request, if any, is removed. */
    method Remove(request: R) returns (r: Outcome<Exception>)
      modifies this`list
      ensures inSubmission ==> r == Fail(UsbRuntimeException) && list == old(list)
      ensures !inSubmission ==> r == Pass && list == RemoveFirst(old(list), request)
    {
      if IsInSubmission() {
        return Fail(UsbRuntimeException);
      }
      list := RemoveFirst(list, request);
      r := Pass;
    }

    /**
     * removeAll as written: an iterator walks the list while the list itself
     * removes each Request the iterator returns.  The removal bumps the list's
     * modification count, so the iterator's next step throws unless it has
     * already run off the shortened list.
     */
    method RemoveAllAsWritten() returns (r: Outcome<Exception>)
      modifies this`list
      ensures inSubmission ==> r == Fail(UsbRuntimeException) && list == old(list)
      ensures !inSubmission ==> list == RemoveAllAsWrittenList(old(list)) && r == RemoveAllAsWrittenOutcome(old(list))
    {
      if IsInSubmission() {
        return Fail(UsbRuntimeException);
      }
      ghost var original := list;
      var cursor := 0;
      var modCount := 0;
      var expectedModCount := 0;
      while cursor != |list|
        invariant (cursor == 0 && modCount == expectedModCount && list == original)
               || (cursor == 1 && modCount == expectedModCount + 1 && original != [] && list == original[1..])
        decreases 2 - cursor
      {
        if modCount != expectedModCount {
          return Fail(ConcurrentModificationException);
        }
        var next := list[cursor];
        cursor := cursor + 1;
        RemoveFirstOfHead(list);
        list := RemoveFirst(list, next);
        modCount := modCount + 1;
      }
      r := Pass;
    }

    /** removeAll as documented: refused while in submission; otherwise the bundle is emptied. */
    method RemoveAll() returns (r: Outcome<Exception>)
      modifies this`list
      ensures inSubmission ==> r == Fail(UsbRuntimeException) && list == old(list)
      ensures !inSubmission ==> r == Pass && list == [] && IsEmpty()
    {
      if IsInSubmission() {
        return Fail(UsbRuntimeException);
      }
      list := [];
      r := Pass;
    }

    /** recycle as written: it calls removeAll as written, and so inherits its defect. */
    method RecycleAsWritten() returns (r: Outcome<Exception>)
      modifies this`list
      ensures inSubmission ==> r == Fail(UsbRuntimeException) && list == old(list)
      ensures !inSubmission ==> list == RemoveAllAsWrittenList(old(list)) && r == RemoveAllAsWrittenOutcome(old(list))
    {
      r := RemoveAllAsWritten();
    }

    /** recycle with the corrected removeAll, so the bundle comes back empty. */
    method Recycle() returns (r: Outcome<Exception>)
      modifies this`list
      ensures inSubmission ==> r == Fail(UsbRuntimeException) && list == old(list)
      ensures !inSubmission ==> r == Pass && IsEmpty()
    {
      r := RemoveAll();
    }
  }

  /** removeAll as written on a bundle of two Requests leaves the second one, without an exception. */
  lemma RemoveAllAsWrittenLeavesOne<R>(a: R, b: R)
    ensures RemoveAllAsWrittenList([a, b]) == [b]
    ensures RemoveAllAsWrittenOutcome<R>([a, b]) == Pass
  {
  }

  /** removeAll as written fails to empty every bundle of two or more Requests. */
  lemma {:induction false} RemoveAllAsWrittenDoesNotEmpty<R>(s: seq<R>)
    ensures RemoveAllAsWrittenList(s) == [] <==> |s| <= 1
    ensures |s| >= 1 && |s| != 2 <==> RemoveAllAsWrittenOutcome(s).Fail?
  {
  }
}
