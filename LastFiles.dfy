/** The list of recently opened files (class LastFiles): most recent first,
    at most maxSize names, kept between sessions in the properties File1,
    File2, ... */
module LastFiles {
  import opened JavaLang
  import Proper

  // ---------------------------------------------------------------------
  // The list operations of java.util.LinkedList that the class uses
  // ---------------------------------------------------------------------

  /** `list.indexOf(v)`: the first index holding v, or -1. */
  function FirstIndex(l: seq<string>, v: string): (r: int)
    ensures -1 <= r < |l|
    ensures r == -1 <==> v !in l
    ensures r >= 0 ==> l[r] == v && forall j :: 0 <= j < r ==> l[j] != v
  {
    if l == [] then -1
    else if l[0] == v then 0
    else
      var k := FirstIndex(l[1..], v);
      if k < 0 then -1 else k + 1
  }

  /** `list.remove(i)`. */
  function RemoveAt(l: seq<string>, i: nat): (r: seq<string>)
    requires i < |l|
    ensures |r| == |l| - 1
  {
    l[..i] + l[i + 1..]
  }

  /** The list without the first occurrence of v (the list itself when v is absent). */
  function WithoutFirst(l: seq<string>, v: string): (r: seq<string>)
  {
    var i := FirstIndex(l, v);
    if i >= 0 then RemoveAt(l, i) else l
  }

  /** put(v): v moves to the front; when that makes the list longer than
      maxSize, the element at index maxSize is dropped. */
  function MoveToFront(l: seq<string>, v: string, maxSize: nat): seq<string>
  {
    var m := [v] + WithoutFirst(l, v);
    if |m| > maxSize then RemoveAt(m, maxSize) else m
  }

  // ---------------------------------------------------------------------
  // A reference definition and the properties of put and remove
  // ---------------------------------------------------------------------

  predicate NoDuplicates(l: seq<string>)
  {
    forall i, j :: 0 <= i < j < |l| ==> l[i] != l[j]
  }

  /** The elements of l other than v, in order. */
  function Others(l: seq<string>, v: string): (r: seq<string>)
    ensures v !in r
    ensures forall x :: x in r <==> x in l && x != v
  {
    if l == [] then []
    else (if l[0] == v then [] else [l[0]]) + Others(l[1..], v)
  }

  /** The first maxSize elements of l. */
  function Take(l: seq<string>, n: nat): seq<string>
  {
    if |l| <= n then l else l[..n]
  }

  /** The tail of a list without duplicates has none either, and does not
      hold the head. */
  lemma TailNoDuplicates(l: seq<string>)
    requires NoDuplicates(l) && l != []
    ensures NoDuplicates(l[1..]) && l[0] !in l[1..]
  {
    var t := l[1..];
    forall i, j | 0 <= i < j < |t| ensures t[i] != t[j] {
      assert l[i + 1] != l[j + 1];
    }
    forall j | 0 <= j < |t| ensures t[j] != l[0] {
      assert l[0] != l[j + 1];
    }
  }

  /** Past a head other than v, the first v is removed from the tail. */
  lemma WithoutFirstCons(l: seq<string>, v: string)
    requires l != [] && l[0] != v
    ensures WithoutFirst(l, v) == [l[0]] + WithoutFirst(l[1..], v)
  {
    var t := l[1..];
    var k := FirstIndex(t, v);
    assert FirstIndex(l, v) == if k < 0 then -1 else k + 1;
    if k >= 0 {
      assert l[..k + 1] == [l[0]] + t[..k];
      assert l[k + 2..] == t[k + 1..];
      assert RemoveAt(l, k + 1) == [l[0]] + RemoveAt(t, k);
    }
  }

  lemma {:induction false} WithoutFirstIsOthers(l: seq<string>, v: string)
    requires NoDuplicates(l)
    ensures WithoutFirst(l, v) == Others(l, v)
  {
    if l != [] {
      if l[0] == v {
        assert WithoutFirst(l, v) == l[1..] by {
          assert FirstIndex(l, v) == 0;
        }
        assert v !in l[1..] by {
          TailNoDuplicates(l);
        }
        OthersAbsent(l[1..], v);
      } else {
        assert NoDuplicates(l[1..]) by {
          TailNoDuplicates(l);
        }
        WithoutFirstIsOthers(l[1..], v);
        WithoutFirstCons(l, v);
      }
    }
  }

  lemma {:induction false} OthersAbsent(l: seq<string>, v: string)
    requires v !in l
    ensures Others(l, v) == l
  {
    if l != [] {
      OthersAbsent(l[1..], v);
    }
  }

  lemma {:induction false} OthersNoDuplicates(l: seq<string>, v: string)
    requires NoDuplicates(l)
    ensures NoDuplicates(Others(l, v))
  {
    if l != [] {
      TailNoDuplicates(l);
      OthersNoDuplicates(l[1..], v);
    }
  }

  lemma {:induction false} OthersLength(l: seq<string>, v: string)
    requires NoDuplicates(l)
    ensures |Others(l, v)| == if v in l then |l| - 1 else |l|
  {
    if v in l {
      WithoutFirstIsOthers(l, v);
    } else {
      OthersAbsent(l, v);
    }
  }

  /** On a list without duplicates, put(v) gives v followed by the other names
      in their old order, cut to maxSize. */
  lemma PutIsMoveToFront(l: seq<string>, v: string, maxSize: nat)
    requires NoDuplicates(l) && |l| <= maxSize
    ensures MoveToFront(l, v, maxSize) == Take([v] + Others(l, v), maxSize)
  {
    WithoutFirstIsOthers(l, v);
    var m := [v] + Others(l, v);
    if |m| > maxSize {
      OthersLength(l, v);
      assert RemoveAt(m, maxSize) == m[..maxSize];
    }
  }

  /** put keeps the list within maxSize and, when there is room for one
      name, puts v first. */
  lemma PutBoundedFront(l: seq<string>, v: string, maxSize: nat)
    requires |l| <= maxSize
    ensures |MoveToFront(l, v, maxSize)| <= maxSize
    ensures maxSize > 0 ==> MoveToFront(l, v, maxSize)[0] == v
  {
  }

  /** A name put in front of a list without it and without duplicates. */
  lemma ConsNoDuplicates(v: string, o: seq<string>)
    requires NoDuplicates(o) && v !in o
    ensures NoDuplicates([v] + o)
  {
    var m := [v] + o;
    forall i, j | 0 <= i < j < |m| ensures m[i] != m[j] {
      if i == 0 {
        assert m[j] == o[j - 1];
      } else {
        assert m[i] == o[i - 1] && m[j] == o[j - 1];
      }
    }
  }

  /** Cutting a list keeps it free of duplicates and brings in nothing. */
  lemma TakeKeeps(m: seq<string>, n: nat)
    ensures NoDuplicates(m) ==> NoDuplicates(Take(m, n))
    ensures forall x :: x in Take(m, n) ==> x in m
  {
    if |m| > n {
      assert forall i :: 0 <= i < n ==> Take(m, n)[i] == m[i];
    }
  }

  /** put never brings in a name other than v, and keeps a list free of
      duplicates. */
  lemma PutNoDuplicates(l: seq<string>, v: string, maxSize: nat)
    requires NoDuplicates(l) && |l| <= maxSize
    ensures NoDuplicates(MoveToFront(l, v, maxSize))
    ensures forall x :: x in MoveToFront(l, v, maxSize) ==> x == v || x in l
  {
    var o := Others(l, v);
    assert MoveToFront(l, v, maxSize) == Take([v] + o, maxSize) by {
      PutIsMoveToFront(l, v, maxSize);
    }
    assert NoDuplicates([v] + o) by {
      OthersNoDuplicates(l, v);
      ConsNoDuplicates(v, o);
    }
    TakeKeeps([v] + o, maxSize);
  }

  /** Opening the most recent file again leaves the list as it is. */
  lemma PutIdempotent(l: seq<string>, v: string, maxSize: nat)
    requires |l| <= maxSize
    ensures MoveToFront(MoveToFront(l, v, maxSize), v, maxSize) == MoveToFront(l, v, maxSize)
  {
    var r := MoveToFront(l, v, maxSize);
    if maxSize > 0 {
      assert r[0] == v;
      assert FirstIndex(r, v) == 0;
      assert [v] + RemoveAt(r, 0) == r;
    }
  }

  /** remove(v) of a name in a list without duplicates leaves exactly the
      other names, in order. */
  lemma RemoveIsOthers(l: seq<string>, v: string)
    requires NoDuplicates(l) && v in l
    ensures RemoveAt(l, FirstIndex(l, v)) == Others(l, v)
    ensures v !in RemoveAt(l, FirstIndex(l, v))
  {
    WithoutFirstIsOthers(l, v);
  }

  // ---------------------------------------------------------------------
  // Loading from and saving to the properties File1, File2, ...
  // ---------------------------------------------------------------------

  function FileKey(i: Int32): string
  {
    "File" + IntToString(i)
  }

  lemma FileKeysDistinct(i: Int32, j: Int32)
    ensures FileKey(i) == FileKey(j) <==> i == j
  {
    if FileKey(i) == FileKey(j) {
      assert FileKey(i)[4..] == IntToString(i);
      assert FileKey(j)[4..] == IntToString(j);
      IntToStringInjective(i, j);
    }
  }

  /** The names the constructor reads from File1 .. Filen, skipping empty ones. */
  function Loaded(store: Proper.Store, n: nat): (r: seq<string>)
    requires n <= INT_MAX
    ensures |r| <= n
    ensures forall k :: 0 <= k < |r| ==> |r[k]| > 0
  {
    if n == 0 then []
    else
      var s := Proper.Lookup(store, FileKey(n), "");
      Loaded(store, n - 1) + (if |s| > 0 then [s] else [])
  }

  /** What save() writes to File k: the k-th name, or "" past the list's end. */
  function Entry(l: seq<string>, k: nat): string
  {
    if 1 <= k <= |l| then l[k - 1] else ""
  }

  /** The store after File1 .. Filen have been written. */
  function Written(store: Proper.Store, l: seq<string>, n: nat): Proper.Store
    requires n <= INT_MAX
  {
    if n == 0 then store else Written(store, l, n - 1)[FileKey(n) := Entry(l, n)]
  }

  /** The store after save(): one property per name, and "" for the rest of
      File1 .. FilemaxSize. */
  function Saved(store: Proper.Store, l: seq<string>, maxSize: nat): Proper.Store
    requires Max(|l|, maxSize) <= INT_MAX
  {
    Written(store, l, Max(|l|, maxSize))
  }

  /** After writing File1 .. Filen, File k holds entry k for each k <= n. */
  lemma {:induction false} WrittenLookup(store: Proper.Store, l: seq<string>, n: nat, k: nat)
    requires 1 <= k <= n <= INT_MAX
    ensures FileKey(k) in Written(store, l, n) && Written(store, l, n)[FileKey(k)] == Entry(l, k)
  {
    if k < n {
      WrittenLookup(store, l, n - 1, k);
      FileKeysDistinct(k, n);
    }
  }

  /** A File key numbered k is among those written when 1 <= k <= n. */
  predicate IsWrittenKey(key: string, n: nat)
  {
    exists k: nat :: 1 <= k <= n && k <= INT_MAX && key == FileKey(k)
  }

  /** save() changes no property but File1 .. Filen. */
  lemma {:induction false} WrittenKeepsOthers(store: Proper.Store, l: seq<string>, n: nat, key: string)
    requires n <= INT_MAX && !IsWrittenKey(key, n)
    ensures key in Written(store, l, n) <==> key in store
    ensures key in store ==> Written(store, l, n)[key] == store[key]
  {
    if n > 0 {
      assert key != FileKey(n);
      WrittenKeepsOthers(store, l, n - 1, key);
    }
  }

  /** Loading the first m written keys gives back the first m names. */
  lemma {:induction false} LoadWritten(store: Proper.Store, l: seq<string>, n: nat, m: nat)
    requires m <= n <= INT_MAX
    requires forall k :: 0 <= k < |l| ==> |l[k]| > 0
    ensures Loaded(Written(store, l, n), m) == l[..Min(m, |l|)]
  {
    if m > 0 {
      LoadWritten(store, l, n, m - 1);
      WrittenLookup(store, l, n, m);
      if m <= |l| {
        assert l[..m] == l[..m - 1] + [l[m - 1]];
      }
    }
  }

  /** save() and then the constructor of the next session restore the list,
      when its names are non-empty and it fits in maxSize. */
  lemma SaveLoadRoundTrip(store: Proper.Store, l: seq<string>, maxSize: nat)
    requires maxSize <= INT_MAX && |l| <= maxSize
    requires forall k :: 0 <= k < |l| ==> |l[k]| > 0
    ensures Loaded(Saved(store, l, maxSize), maxSize) == l
  {
    LoadWritten(store, l, maxSize, maxSize);
  }

  // ---------------------------------------------------------------------
  // The class
  // ---------------------------------------------------------------------

  class LastFiles {
    const maxSize: nat
    var list: seq<string>
    const props: Proper.Properties

    ghost predicate Valid()
      reads this
    {
      |list| <= maxSize < INT_MAX
    }

    /** LastFiles(maxSize): reads File1 .. FilemaxSize, skipping empty names.
        The loop counter is a Java int, so maxSize stays below INT_MAX. */
    constructor (maxSize: nat, props: Proper.Properties)
      requires maxSize < INT_MAX
      ensures this.maxSize == maxSize && this.props == props
      ensures list == Loaded(props.store, maxSize)
      ensures Valid()
    {
      var l: seq<string> := [];
      var i := 1;
      while i <= maxSize
        invariant 1 <= i <= maxSize + 1
        invariant l == Loaded(props.store, i - 1)
      {
        var s := props.GetProperty(FileKey(i), "");
        if |s| > 0 {
          l := l + [s];
        }
        i := i + 1;
      }
      this.maxSize := maxSize;
      this.props := props;
      list := l;
    }

    method Put(v: string)
      requires Valid()
      modifies this
      ensures Valid() && list == MoveToFront(old(list), v, maxSize)
    {
      var i := FirstIndex(list, v);
      if i >= 0 {
        list := RemoveAt(list, i);
      }
      list := [v] + list;
      if |list| > maxSize {
        list := RemoveAt(list, maxSize);
      }
    }

    /** remove(v): `list.remove(list.indexOf(v))` throws an
        IndexOutOfBoundsException when v is not in the list. */
    method Remove(v: string) returns (thrown: bool)
      requires Valid()
      modifies this
      ensures Valid()
      ensures thrown <==> v !in old(list)
      ensures list == if thrown then old(list) else RemoveAt(old(list), FirstIndex(old(list), v))
    {
      var pos := FirstIndex(list, v);
      if pos < 0 {
        thrown := true;
      } else {
        thrown := false;
        list := RemoveAt(list, pos);
      }
    }

    function GetList(): seq<string>
      reads this
    {
      list
    }

    /** save(): File1 .. File|list| get the names, the remaining keys up to
        maxSize get "". */
    method Save()
      requires Valid()
      modifies props
      ensures props.store == Saved(old(props.store), list, maxSize)
      ensures props.fileName == old(props.fileName)
    {
      ghost var s0 := props.store;
      var l, n := list, maxSize;
      var i := 1;
      while i <= |l|
        invariant 1 <= i <= |l| + 1
        invariant props.store == Written(s0, l, i - 1)
        invariant props.fileName == old(props.fileName)
      {
        props.SetProperty(FileKey(i), l[i - 1]);
        i := i + 1;
      }
      while i <= n
        invariant |l| + 1 <= i <= Max(|l|, n) + 1
        invariant props.store == Written(s0, l, i - 1)
        invariant props.fileName == old(props.fileName)
      {
        props.SetProperty(FileKey(i), "");
        i := i + 1;
      }
    }
  }
}
