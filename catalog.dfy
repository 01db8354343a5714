/** The catalog scanner: the village listing of the photo root and the image
    listing of one village, over a snapshot of directory entries. */
module Catalog {
  import opened Text
  import opened Paths

  /** One child of a directory as the scanner sees it: `is_dir()`, `is_file()`
      and the modification time used as a sort key. */
  datatype Entry = Entry(name: string, isDir: bool, isFile: bool, mtime: int)

  /** A folder to list: whether it exists, and its direct children. */
  datatype Folder = Folder(present: bool, children: seq<Entry>)

  /** The two sort keys: villages by lower-cased name, images by the pair
      (lower-cased name, modification time). */
  datatype Order = ByName | ByNameThenMtime

  /** A list comprehension `[e for e in s if keep(e)]`. */
  function Filter<T>(s: seq<T>, keep: T -> bool): seq<T> {
    if s == [] then []
    else if keep(s[0]) then [s[0]] + Filter(s[1..], keep)
    else Filter(s[1..], keep)
  }

  /** `a` is `b` with some elements left out, order kept. */
  predicate IsSubsequence<T(==)>(a: seq<T>, b: seq<T>) {
    || a == []
    || (b != [] && a[0] == b[0] && IsSubsequence(a[1..], b[1..]))
    || (b != [] && IsSubsequence(a, b[1..]))
  }

  /** The filter keeps each element as often as the input has it when it
      passes the test, and never otherwise. */
  lemma {:induction false} FilterCounts<T>(s: seq<T>, keep: T -> bool, x: T)
    ensures multiset(Filter(s, keep))[x] == if keep(x) then multiset(s)[x] else 0
  {
    if s != [] {
      FilterCounts(s[1..], keep, x);
      assert s == [s[0]] + s[1..];
    }
  }

  /** Membership form of `FilterCounts`. */
  lemma FilterMembers<T>(s: seq<T>, keep: T -> bool)
    ensures forall x :: x in Filter(s, keep) <==> x in s && keep(x)
  {
    forall x
      ensures x in Filter(s, keep) <==> x in s && keep(x)
    {
      FilterCounts(s, keep, x);
    }
  }

  /** The filter keeps the input's order. */
  lemma {:induction false} FilterIsSubsequence<T>(s: seq<T>, keep: T -> bool)
    ensures IsSubsequence(Filter(s, keep), s)
  {
    if s != [] {
      FilterIsSubsequence(s[1..], keep);
    }
  }

  /** Every sequence is a subsequence of itself. */
  lemma {:induction false} SubsequenceOfItself<T>(s: seq<T>)
    ensures IsSubsequence(s, s)
  {
    if s != [] {
      SubsequenceOfItself(s[1..]);
    }
  }

  /** Filtering what already passes the test changes nothing. */
  lemma {:induction false} FilterIdempotent<T>(s: seq<T>, keep: T -> bool)
    ensures Filter(Filter(s, keep), keep) == Filter(s, keep)
  {
    if s != [] {
      FilterIdempotent(s[1..], keep);
    }
  }

  /** Python's `key(a) < key(b)`: `a` must be placed before `b`. */
  predicate KeyLt(o: Order, a: Entry, b: Entry) {
    var x, y := Lower(a.name), Lower(b.name);
    match o
    case ByName => StrLt(x, y)
    case ByNameThenMtime => StrLt(x, y) || (x == y && a.mtime < b.mtime)
  }

  /** `a` may come before `b`: the key of `b` is not smaller. */
  predicate KeyLe(o: Order, a: Entry, b: Entry) {
    !KeyLt(o, b, a)
  }

  lemma KeyLtAsymmetric(o: Order, a: Entry, b: Entry)
    requires KeyLt(o, a, b)
    ensures !KeyLt(o, b, a)
  {
    var x, y := Lower(a.name), Lower(b.name);
    if StrLt(x, y) {
      StrLtAsymmetric(x, y);
    } else {
      StrLtIrreflexive(x);
    }
  }

  /** Any two entries can be placed in some order. */
  lemma KeyLeTotal(o: Order, a: Entry, b: Entry)
    ensures KeyLe(o, a, b) || KeyLe(o, b, a)
  {
    if KeyLt(o, a, b) {
      KeyLtAsymmetric(o, a, b);
    }
  }

  lemma KeyLeTransitive(o: Order, a: Entry, b: Entry, c: Entry)
    requires KeyLe(o, a, b) && KeyLe(o, b, c)
    ensures KeyLe(o, a, c)
  {
    var x, y, z := Lower(a.name), Lower(b.name), Lower(c.name);
    StrLtTotal(x, y);
    StrLtTotal(y, z);
    if StrLt(x, y) && StrLt(y, z) {
      StrLtTransitive(x, y, z);
    }
    if StrLt(x, z) {
      StrLtAsymmetric(x, z);
    } else {
      assert x == y && y == z;
      StrLtIrreflexive(x);
    }
  }

  /** Non-decreasing by the key of `o`. */
  predicate Sorted(o: Order, s: seq<Entry>) {
    forall i, j :: 0 <= i < j < |s| ==> KeyLe(o, s[i], s[j])
  }

  /** Place `x` before the first element whose key is not smaller than its own. */
  function Insert(o: Order, x: Entry, s: seq<Entry>): seq<Entry> {
    if s == [] then [x]
    else if KeyLt(o, s[0], x) then [s[0]] + Insert(o, x, s[1..])
    else [x] + s
  }

  /** `sorted(s, key=...)`: a stable insertion sort, earlier elements first
      among equal keys. */
  function Sort(o: Order, s: seq<Entry>): seq<Entry> {
    if s == [] then [] else Insert(o, s[0], Sort(o, s[1..]))
  }

  lemma {:induction false} InsertCounts(o: Order, x: Entry, s: seq<Entry>)
    ensures multiset(Insert(o, x, s)) == multiset(s) + multiset{x}
  {
    if s != [] && KeyLt(o, s[0], x) {
      InsertCounts(o, x, s[1..]);
      assert s == [s[0]] + s[1..];
    }
  }

  /** An element that may precede every element of a sorted list may be put
      in front of it. */
  lemma ConsSorted(o: Order, y: Entry, t: seq<Entry>)
    requires Sorted(o, t)
    requires forall z :: z in t ==> KeyLe(o, y, z)
    ensures Sorted(o, [y] + t)
  {
    var r := [y] + t;
    forall i, j | 0 <= i < j < |r|
      ensures KeyLe(o, r[i], r[j])
    {
      assert r[j] == t[j - 1];
      if i == 0 {
        assert r[j] in t;
      } else {
        assert r[i] == t[i - 1];
      }
    }
  }

  lemma {:induction false} InsertSorted(o: Order, x: Entry, s: seq<Entry>)
    requires Sorted(o, s)
    ensures Sorted(o, Insert(o, x, s))
  {
    if s == [] {
    } else if KeyLt(o, s[0], x) {
      var rest := Insert(o, x, s[1..]);
      assert Sorted(o, s[1..]) by {
        forall i, j | 0 <= i < j < |s[1..]|
          ensures KeyLe(o, s[1..][i], s[1..][j])
        {
          assert s[1..][i] == s[i + 1] && s[1..][j] == s[j + 1];
        }
      }
      InsertSorted(o, x, s[1..]);
      InsertCounts(o, x, s[1..]);
      forall y | y in rest
        ensures KeyLe(o, s[0], y)
      {
        assert y in multiset(rest);
        if y == x {
          KeyLtAsymmetric(o, s[0], x);
        } else {
          assert y in multiset(s[1..]);
          var k :| 0 <= k < |s[1..]| && s[1..][k] == y;
          assert s[k + 1] == y;
        }
      }
      ConsSorted(o, s[0], rest);
    } else {
      forall z | z in s
        ensures KeyLe(o, x, z)
      {
        var k :| 0 <= k < |s| && s[k] == z;
        if k > 0 {
          KeyLeTransitive(o, x, s[0], z);
        }
      }
      ConsSorted(o, x, s);
    }
  }

  /** The sort returns its input reordered: nothing added, nothing lost. */
  lemma {:induction false} SortPermutes(o: Order, s: seq<Entry>)
    ensures multiset(Sort(o, s)) == multiset(s)
  {
    if s != [] {
      SortPermutes(o, s[1..]);
      InsertCounts(o, s[0], Sort(o, s[1..]));
      assert s == [s[0]] + s[1..];
    }
  }

  /** The sort returns its input in non-decreasing key order. */
  lemma {:induction false} SortSorted(o: Order, s: seq<Entry>)
    ensures Sorted(o, Sort(o, s))
  {
    if s != [] {
      SortSorted(o, s[1..]);
      InsertSorted(o, s[0], Sort(o, s[1..]));
    }
  }

  /** `name.startswith(".")`. */
  predicate Hidden(name: string) {
    |name| > 0 && name[0] == '.'
  }

  /** A child of the photo root that counts as a village. */
  predicate IsVillage(e: Entry) {
    e.isDir && !Hidden(e.name)
  }

  /** A child of a village folder that counts as an image: the listing's own
      copy of the extension test, on the entry's suffix. */
  predicate IsImage(e: Entry) {
    e.isFile && Lower(Suffix(e.name)) in AllowedExts
  }

  /** On a plain directory entry name the listing's copy of the extension
      test agrees with `is_allowed`. */
  lemma ImageTestIsAllowed(e: Entry)
    requires e.name != [] && e.name != "." && '/' !in e.name
    ensures IsImage(e) <==> e.isFile && IsAllowed(e.name)
  {
    BaseNameOfComponent(e.name);
  }

  /** `villages()` over the children of the photo root. */
  function Villages(root: seq<Entry>): seq<Entry> {
    Sort(ByName, Filter(root, IsVillage))
  }

  /** `list_images(folder)` with recursive listing switched off. */
  function ListImages(f: Folder): seq<Entry> {
    if !f.present then [] else Sort(ByNameThenMtime, Filter(f.children, IsImage))
  }

  /** Every village listed is a visible directory, and every visible
      directory of the root is listed exactly as often as it occurs there. */
  lemma VillagesSelect(root: seq<Entry>)
    ensures forall e :: multiset(Villages(root))[e] == if IsVillage(e) then multiset(root)[e] else 0
    ensures forall e :: e in Villages(root) <==> e in root && e.isDir && !Hidden(e.name)
  {
    var r := Villages(root);
    SortPermutes(ByName, Filter(root, IsVillage));
    forall e
      ensures multiset(r)[e] == if IsVillage(e) then multiset(root)[e] else 0
    {
      FilterCounts(root, IsVillage, e);
    }
    forall e
      ensures e in r <==> e in root && IsVillage(e)
    {
      assert e in r <==> multiset(r)[e] > 0;
      assert e in root <==> multiset(root)[e] > 0;
    }
  }

  /** The villages are listed by lower-cased name, non-decreasing. */
  lemma VillagesSorted(root: seq<Entry>)
    ensures forall i, j :: 0 <= i < j < |Villages(root)| ==>
      !StrLt(Lower(Villages(root)[j].name), Lower(Villages(root)[i].name))
  {
    var r := Villages(root);
    SortSorted(ByName, Filter(root, IsVillage));
    forall i, j | 0 <= i < j < |r|
      ensures !StrLt(Lower(r[j].name), Lower(r[i].name))
    {
      assert KeyLe(ByName, r[i], r[j]);
    }
  }

  /** A village folder that does not exist has no images. */
  lemma ListImagesMissing(f: Folder)
    requires !f.present
    ensures ListImages(f) == []
  {
  }

  /** Every image listed is a regular file whose lower-cased suffix is an
      allowed extension, and
      every such child of an existing folder is listed exactly as often as it
      occurs. */
  lemma ListImagesSelect(f: Folder)
    requires f.present
    ensures forall e :: multiset(ListImages(f))[e] == if IsImage(e) then multiset(f.children)[e] else 0
    ensures forall e :: e in ListImages(f) <==> e in f.children && e.isFile && Lower(Suffix(e.name)) in AllowedExts
  {
    var r := ListImages(f);
    SortPermutes(ByNameThenMtime, Filter(f.children, IsImage));
    forall e
      ensures multiset(r)[e] == if IsImage(e) then multiset(f.children)[e] else 0
    {
      FilterCounts(f.children, IsImage, e);
    }
    forall e
      ensures e in r <==> e in f.children && IsImage(e)
    {
      assert e in r <==> multiset(r)[e] > 0;
      assert e in f.children <==> multiset(f.children)[e] > 0;
    }
  }

  /** The images are listed by lower-cased name and, among equal names, by
      modification time. */
  lemma ListImagesSorted(f: Folder)
    ensures forall i, j :: 0 <= i < j < |ListImages(f)| ==>
      var a, b := ListImages(f)[i], ListImages(f)[j];
      StrLt(Lower(a.name), Lower(b.name)) || (Lower(a.name) == Lower(b.name) && a.mtime <= b.mtime)
  {
    var r := ListImages(f);
    if f.present {
      SortSorted(ByNameThenMtime, Filter(f.children, IsImage));
    }
    forall i, j | 0 <= i < j < |r|
      ensures StrLt(Lower(r[i].name), Lower(r[j].name))
        || (Lower(r[i].name) == Lower(r[j].name) && r[i].mtime <= r[j].mtime)
    {
      assert KeyLe(ByNameThenMtime, r[i], r[j]);
      StrLtTotal(Lower(r[i].name), Lower(r[j].name));
    }
  }

  /** Hidden and non-directory children are dropped and the rest is ordered
      by lower-cased name, whatever the order of the snapshot. */
  lemma VillagesExample(a: Entry, b: Entry, h: Entry, f: Entry)
    requires IsVillage(a) && IsVillage(b) && StrLt(Lower(a.name), Lower(b.name))
    requires h.isDir && Hidden(h.name) && !f.isDir
    ensures Villages([b, h, f, a]) == [a, b]
  {
    var s := [b, h, f, a];
    assert s[1..][1..][1..][1..] == [];
    assert Filter(s[1..][1..][1..], IsVillage) == [a];
    assert Filter(s[1..], IsVillage) == [a];
    assert Filter(s, IsVillage) == [b, a];
    StrLtAsymmetric(Lower(a.name), Lower(b.name));
    assert Sort(ByName, [a]) == [a];
    assert Insert(ByName, b, [a]) == [a] + Insert(ByName, b, []);
  }

  /** Files outside the allow-list are dropped and the rest is ordered by
      lower-cased name. */
  lemma ListImagesExample(x: Entry, y: Entry, z: Entry)
    requires IsImage(x) && IsImage(y) && !IsImage(z)
    requires StrLt(Lower(y.name), Lower(x.name))
    ensures ListImages(Folder(true, [x, y, z])) == [y, x]
  {
    var s := [x, y, z];
    assert s[1..][1..][1..] == [];
    assert Filter(s[1..][1..], IsImage) == [];
    assert Filter(s[1..], IsImage) == [y];
    assert Filter(s, IsImage) == [x, y];
    StrLtAsymmetric(Lower(y.name), Lower(x.name));
    assert Sort(ByNameThenMtime, [y]) == [y];
    assert Insert(ByNameThenMtime, x, [y]) == [y] + Insert(ByNameThenMtime, x, []);
  }
}
