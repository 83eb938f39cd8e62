// The name index of a ZIP archive: the heap sort of the directory by folded names, the
// binary search in it and the scan it stands for.

module NameIndex {
  import opened Ints

  // A header of the central directory.
  datatype Entry = Entry(name: seq<byte>, comment: seq<byte>)

  predicate Fits(e: Entry) {
    |e.name| < 0x1_0000 && |e.comment| < 0x1_0000
  }

  // MZ_TOLOWER
  function Lower(c: byte): byte {
    if 65 <= c <= 90 then c + 32 else c
  }

  // Bytes fold to the same one exactly if they are equal or one letter in its two cases; what
  // is folded has no capital letter and folds to itself.
  lemma LowerIs(c: byte, d: byte)
    ensures Lower(c) == Lower(d) <==> c == d || ('A' as int <= c <= 'Z' as int && d - c == 'a' as int - 'A' as int)
                                             || ('A' as int <= d <= 'Z' as int && c - d == 'a' as int - 'A' as int)
    ensures !('A' as int <= Lower(c) <= 'Z' as int) && Lower(Lower(c)) == Lower(c)
    ensures !('A' as int <= c <= 'Z' as int) ==> Lower(c) == c
  {
  }

  function Fold(s: seq<byte>): (r: seq<byte>)
    ensures |r| == |s| && forall i :: 0 <= i < |s| ==> r[i] == Lower(s[i])
  {
    seq(|s|, i requires 0 <= i < |s| => Lower(s[i]))
  }

  // ----- The order of names -----

  predicate Before(x: seq<byte>, y: seq<byte>) {
    y != [] && (x == [] || x[0] < y[0] || (x[0] == y[0] && Before(x[1..], y[1..])))
  }

  lemma {:induction false} BeforeAt(x: seq<byte>, y: seq<byte>, k: nat)
    requires k <= |x| && k <= |y| && x[..k] == y[..k]
    requires k < |x| && k < |y| ==> x[k] != y[k]
    ensures Before(x, y) <==> if k < |x| && k < |y| then x[k] < y[k] else |x| < |y|
    ensures (k < |x| && k < |y|) || |x| != |y| ==> x != y
    ensures k == |x| == |y| ==> x == y
  {
    if k > 0 {
      assert x[0] == x[..k][0] == y[..k][0] == y[0];
      assert x[1..][..k - 1] == x[..k][1..];
      assert y[1..][..k - 1] == y[..k][1..];
      BeforeAt(x[1..], y[1..], k - 1);
      assert x == [x[0]] + x[1..] && y == [y[0]] + y[1..];
    }
  }

  // Of two different names exactly one is before the other.
  lemma {:induction false} OneBefore(x: seq<byte>, y: seq<byte>)
    ensures x == y ==> !Before(x, y)
    ensures x != y ==> (Before(x, y) <==> !Before(y, x))
  {
    if x != [] && y != [] {
      OneBefore(x[1..], y[1..]);
      assert x == [x[0]] + x[1..] && y == [y[0]] + y[1..];
    }
  }

  lemma {:induction false} BeforeBefore(x: seq<byte>, y: seq<byte>, z: seq<byte>)
    requires !Before(y, x) && !Before(z, y)
    ensures !Before(z, x)
    decreases |x|
  {
    if x != [] {
      if x[0] == y[0] == z[0] {
        BeforeBefore(x[1..], y[1..], z[1..]);
      }
    }
  }

  function KeyAt(keys: seq<seq<byte>>, i: nat): seq<byte> {
    if i < |keys| then keys[i] else []
  }

  predicate Le(keys: seq<seq<byte>>, i: nat, j: nat) {
    !Before(KeyAt(keys, j), KeyAt(keys, i))
  }

  lemma LeLe(keys: seq<seq<byte>>, i: nat, j: nat, k: nat)
    requires Le(keys, i, j) && Le(keys, j, k)
    ensures Le(keys, i, k)
  {
    BeforeBefore(KeyAt(keys, i), KeyAt(keys, j), KeyAt(keys, k));
  }

  lemma LeOne(keys: seq<seq<byte>>, i: nat, j: nat)
    ensures Le(keys, i, j) || Le(keys, j, i)
    ensures Le(keys, i, i)
  {
    OneBefore(KeyAt(keys, i), KeyAt(keys, j));
    OneBefore(KeyAt(keys, i), KeyAt(keys, i));
  }

  // ----- Heaps -----

  // Below position end, no position has a greater one under it, from position lo on.
  ghost predicate Heap(keys: seq<seq<byte>>, s: seq<nat>, lo: nat, end: nat) {
    end <= |s| && forall p: nat, k: nat :: lo <= p && (k == 2 * p + 1 || k == 2 * p + 2) && k < end ==> Le(keys, s[k], s[p])
  }

  // The same except at root.
  ghost predicate HeapBut(keys: seq<seq<byte>>, s: seq<nat>, lo: nat, end: nat, root: nat) {
    end <= |s| && lo <= root < end &&
    (forall p: nat, k: nat :: lo <= p && p != root && (k == 2 * p + 1 || k == 2 * p + 2) && k < end ==> Le(keys, s[k], s[p])) &&
    forall g: nat, k: nat :: lo <= g && (root == 2 * g + 1 || root == 2 * g + 2) && (k == 2 * root + 1 || k == 2 * root + 2) && k < end ==> Le(keys, s[k], s[g])
  }

  function Swapped(s: seq<nat>, i: nat, j: nat): (t: seq<nat>)
    requires i < |s| && j < |s|
    ensures |t| == |s| && t[i] == s[j] && t[j] == s[i] && forall k :: 0 <= k < |s| && k != i && k != j ==> t[k] == s[k]
  {
    s[i := s[j]][j := s[i]]
  }

  lemma SwappedSame(s: seq<nat>, i: nat, j: nat)
    requires i < |s| && j < |s|
    ensures multiset(Swapped(s, i, j)) == multiset(s)
  {
  }

  lemma StartSinking(keys: seq<seq<byte>>, s: seq<nat>, lo: nat, end: nat)
    requires Heap(keys, s, lo + 1, end) && lo < end
    ensures HeapBut(keys, s, lo, end, lo) && SamePart(s, s, end)
  {
    hide Le;
  }

  lemma Sink(keys: seq<seq<byte>>, s: seq<nat>, lo: nat, end: nat, root: nat, child: nat)
    requires HeapBut(keys, s, lo, end, root) && child < end && (child == 2 * root + 1 || child == 2 * root + 2)
    requires forall k: nat :: (k == 2 * root + 1 || k == 2 * root + 2) && k < end ==> Le(keys, s[k], s[child])
    requires Le(keys, s[root], s[child])
    ensures HeapBut(keys, Swapped(s, root, child), lo, end, child)
  {
    hide Le;
  }

  lemma Sunk(keys: seq<seq<byte>>, s: seq<nat>, lo: nat, end: nat, root: nat)
    requires HeapBut(keys, s, lo, end, root)
    requires forall k: nat :: (k == 2 * root + 1 || k == 2 * root + 2) && k < end ==> Le(keys, s[k], s[root])
    ensures Heap(keys, s, lo, end)
  {
    hide Le;
  }

  lemma {:induction false} Top(keys: seq<seq<byte>>, s: seq<nat>, end: nat, k: nat)
    requires Heap(keys, s, 0, end) && k < end
    ensures Le(keys, s[k], s[0])
  {
    if k == 0 {
      LeOne(keys, s[0], s[0]);
    } else {
      var p := (k - 1) / 2;
      Top(keys, s, end, p);
      LeLe(keys, s[k], s[p], s[0]);
    }
  }

  // Everything from position end on is in its place.
  ghost predicate Placed(keys: seq<seq<byte>>, s: seq<nat>, end: nat) {
    forall i, j :: 0 <= i < j < |s| && end <= j ==> Le(keys, s[i], s[j])
  }

  lemma TopPlaced(keys: seq<seq<byte>>, s: seq<nat>, end: nat)
    requires 0 < end < |s| && Heap(keys, s, 0, end + 1) && Placed(keys, s, end + 1)
    ensures Placed(keys, Swapped(s, end, 0), end) && Heap(keys, Swapped(s, end, 0), 1, end)
  {
    hide Le;
    var t := Swapped(s, end, 0);
    forall i | 0 <= i < end ensures Le(keys, t[i], t[end]) {
      Top(keys, s, end + 1, if i == 0 then end else i);
    }
  }

  ghost predicate SamePart(s: seq<nat>, t: seq<nat>, end: nat) {
    |t| == |s| && end <= |s| && multiset(t[..end]) == multiset(s[..end]) && t[end..] == s[end..]
  }

  lemma StillPlaced(keys: seq<seq<byte>>, s: seq<nat>, t: seq<nat>, end: nat)
    requires Placed(keys, s, end) && SamePart(s, t, end)
    ensures Placed(keys, t, end)
  {
    hide Le;
    forall i, j | 0 <= i < j < |t| && end <= j ensures Le(keys, t[i], t[j]) {
      assert t[j] == t[end..][j - end] == s[j];
      if i < end {
        assert t[i] in multiset(t[..end]);
        assert t[i] in s[..end];
      } else {
        assert t[i] == t[end..][i - end] == s[i];
      }
    }
  }

  lemma SwappedPart(s: seq<nat>, i: nat, j: nat, end: nat)
    requires i < end <= |s| && j < end
    ensures SamePart(s, Swapped(s, i, j), end)
  {
    var t := Swapped(s, i, j);
    assert t[..end] == Swapped(s[..end], i, j);
    SwappedSame(s[..end], i, j);
  }

  lemma SamePartTwice(s: seq<nat>, t: seq<nat>, u: seq<nat>, end: nat)
    requires SamePart(s, t, end) && SamePart(t, u, end)
    ensures SamePart(s, u, end)
  {
  }

  lemma SamePartWhole(s: seq<nat>, t: seq<nat>, end: nat)
    requires SamePart(s, t, end)
    ensures multiset(t) == multiset(s)
  {
    assert t == t[..end] + t[end..] && s == s[..end] + s[end..];
  }

  // ----- The index -----

  function Identity(n: nat): (s: seq<nat>)
    ensures |s| == n && forall i :: 0 <= i < n ==> s[i] == i
  {
    seq(n, i requires 0 <= i < n => i)
  }

  // All entries, each once, in the order of their names.
  ghost predicate IsIndex(keys: seq<seq<byte>>, s: seq<nat>) {
    multiset(s) == multiset(Identity(|keys|)) && Placed(keys, s, 0)
  }

  ghost predicate Inside(s: seq<nat>, n: nat) {
    forall i :: 0 <= i < |s| ==> s[i] < n
  }

  lemma SameInside(s: seq<nat>, n: nat)
    requires multiset(s) == multiset(Identity(n))
    ensures Inside(s, n) && |s| == n && forall i :: 0 <= i < n ==> i in s
  {
    assert |multiset(s)| == |s| && |multiset(Identity(n))| == n;
    forall i | 0 <= i < |s| ensures s[i] < n {
      assert s[i] in multiset(Identity(n));
    }
    forall i | 0 <= i < n ensures i in s {
      assert Identity(n)[i] in multiset(s);
    }
  }

  lemma BeforeLe(keys: seq<seq<byte>>, i: nat, j: nat, t: seq<byte>)
    requires Le(keys, i, j)
    ensures Before(KeyAt(keys, j), t) ==> Before(KeyAt(keys, i), t)
    ensures Before(t, KeyAt(keys, i)) ==> Before(t, KeyAt(keys, j))
  {
    var x, y := KeyAt(keys, i), KeyAt(keys, j);
    if Before(y, t) && !Before(x, t) {
      BeforeBefore(t, x, y);
    }
    if Before(t, x) && !Before(t, y) {
      BeforeBefore(x, y, t);
    }
  }

  // The keys at the positions below l are before t, those from h on are after it.
  ghost predicate Between(keys: seq<seq<byte>>, s: seq<nat>, t: seq<byte>, l: nat, h: nat) {
    l <= h <= |s| &&
    (forall k :: 0 <= k < l ==> Before(KeyAt(keys, s[k]), t)) && forall k :: h <= k < |s| ==> Before(t, KeyAt(keys, s[k]))
  }

  lemma Narrower(keys: seq<seq<byte>>, s: seq<nat>, t: seq<byte>, l: nat, h: nat, m: nat)
    requires Placed(keys, s, 0) && Between(keys, s, t, l, h) && l <= m < h
    ensures Before(KeyAt(keys, s[m]), t) ==> Between(keys, s, t, m + 1, h)
    ensures Before(t, KeyAt(keys, s[m])) ==> Between(keys, s, t, l, m)
  {
    hide Le, KeyAt, Before;
    forall k | 0 <= k < m ensures Before(KeyAt(keys, s[m]), t) ==> Before(KeyAt(keys, s[k]), t) {
      BeforeLe(keys, s[k], s[m], t);
    }
    forall k | m < k < |s| ensures Before(t, KeyAt(keys, s[m])) ==> Before(t, KeyAt(keys, s[k])) {
      BeforeLe(keys, s[m], s[k], t);
    }
  }

  lemma NothingBetween(keys: seq<seq<byte>>, s: seq<nat>, t: seq<byte>, l: nat)
    requires IsIndex(keys, s) && Between(keys, s, t, l, l)
    ensures t !in keys
  {
    hide Before;
    SameInside(s, |keys|);
    forall i | 0 <= i < |keys| ensures keys[i] != t {
      assert i in s;
      var k :| 0 <= k < |s| && s[k] == i;
      OneBefore(t, keys[i]);
    }
  }

  // ----- What a search asks for -----

  datatype Comment = NoComment | WithComment(text: seq<byte>)

  datatype Found = Found(index: nat) | NotFound | BadParameter

  predicate IsSeparator(c: byte) {
    c == 47 || c == 92 || c == 58
  }

  lemma SeparatorIs(c: byte)
    ensures IsSeparator(c) <==> c as int == '/' as int || c as int == '\\' as int || c as int == ':' as int
  {
  }

  // Where the name without its path starts.
  function BaseStart(s: seq<byte>): (k: nat)
    ensures k <= |s| && (k > 0 ==> IsSeparator(s[k - 1])) && forall j :: k <= j < |s| ==> !IsSeparator(s[j])
  {
    if s == [] || IsSeparator(s[|s| - 1]) then |s| else BaseStart(s[..|s| - 1])
  }

  predicate Same(x: seq<byte>, y: seq<byte>, caseSensitive: bool) {
    if caseSensitive then x == y else Fold(x) == Fold(y)
  }

  predicate Matches(e: Entry, name: seq<byte>, comment: Comment, caseSensitive: bool, ignorePath: bool) {
    (comment == NoComment || comment.text == [] || Same(comment.text, e.comment, caseSensitive)) &&
    Same(name, if ignorePath then e.name[BaseStart(e.name)..] else e.name, caseSensitive)
  }

  lemma SameLength(x: seq<byte>, y: seq<byte>, caseSensitive: bool)
    ensures Same(x, y, caseSensitive) ==> |x| == |y|
  {
    assert Fold(x) == Fold(y) ==> |Fold(x)| == |Fold(y)|;
  }

  function Keys(es: seq<Entry>): (ks: seq<seq<byte>>)
    ensures |ks| == |es| && forall i :: 0 <= i < |es| ==> ks[i] == Fold(es[i].name)
  {
    seq(|es|, i requires 0 <= i < |es| => Fold(es[i].name))
  }

  // ----- The directory -----

  class Directory {
    const entries: seq<Entry>
    const sortNames: bool
    const reading: bool
    // m_sorted_central_dir_offsets
    const sorted: array<nat>

    ghost predicate Valid()
      reads sorted
    {
      AllFit() && sorted.Length == (if sortNames then |entries| else 0) && (sortNames ==> IsIndex(Keys(entries), sorted[..]))
    }

    ghost predicate AllFit() {
      forall i :: 0 <= i < |entries| ==> Fits(entries[i])
    }

    // The end of mz_zip_reader_read_central_dir: the positions, then the sort.
    constructor (entries: seq<Entry>, sortNames: bool, reading: bool)
      requires forall i :: 0 <= i < |entries| ==> Fits(entries[i])
      ensures Valid() && fresh(sorted)
      ensures this.entries == entries && this.sortNames == sortNames && this.reading == reading
    {
      this.entries, this.sortNames, this.reading := entries, sortNames, reading;
      sorted := new nat[if sortNames then |entries| else 0](i => i);
      new;
      if sortNames {
        assert sorted[..] == Identity(|entries|);
        SortByFilename();
      }
    }

    // mz_zip_reader_filename_less
    method FilenameLess(l: nat, r: nat) returns (less: bool)
      requires l < |entries| && r < |entries|
      ensures less <==> !Le(Keys(entries), r, l)
    {
      var x, y := entries[l].name, entries[r].name;
      var n, i := if |x| < |y| then |x| else |y|, 0;
      while i < n && Lower(x[i]) == Lower(y[i])
        invariant i <= n && Fold(x)[..i] == Fold(y)[..i]
      {
        i := i + 1;
      }
      BeforeAt(Fold(x), Fold(y), i);
      less := if i == n then |x| < |y| else Lower(x[i]) < Lower(y[i]);
    }

    // The inner loop of both phases.
    method SiftDown(start: nat, end: nat)
      requires start < end <= sorted.Length && Inside(sorted[..], |entries|) && Heap(Keys(entries), sorted[..], start + 1, end)
      modifies sorted
      ensures Heap(Keys(entries), sorted[..], start, end) && SamePart(old(sorted[..]), sorted[..], end) && Inside(sorted[..], |entries|)
    {
      hide Heap, Le, SamePart;
      ghost var keys, s := Keys(entries), sorted[..];
      StartSinking(keys, s, start, end);
      var root := start;
      while true
        invariant HeapBut(keys, sorted[..], start, end, root) && SamePart(s, sorted[..], end) && Inside(sorted[..], |entries|)
        decreases end - root
      {
        var child := 2 * root + 1;
        if child >= end {
          Sunk(keys, sorted[..], start, end, root);
          return;
        }
        child := Larger(child, end);
        var less := FilenameLess(sorted[root], sorted[child]);
        if !less {
          SmallerUnder(keys, sorted[..], end, root, child);
          Sunk(keys, sorted[..], start, end, root);
          return;
        }
        LeOne(keys, sorted[root], sorted[child]);
        Sink(keys, sorted[..], start, end, root, child);
        SwappedPart(sorted[..], root, child, end);
        SamePartTwice(s, sorted[..], Swapped(sorted[..], root, child), end);
        Swap(root, child);
        root := child;
      }
    }

    method Larger(child: nat, end: nat) returns (c: nat)
      requires child < end <= sorted.Length && Inside(sorted[..], |entries|)
      ensures c < end && (c == child || c == child + 1)
      ensures Le(Keys(entries), sorted[child], sorted[c]) && (child + 1 < end ==> Le(Keys(entries), sorted[child + 1], sorted[c]))
    {
      c := child;
      LeOne(Keys(entries), sorted[child], sorted[child]);
      if child + 1 < end {
        var less := FilenameLess(sorted[child], sorted[child + 1]);
        LeOne(Keys(entries), sorted[child], sorted[child + 1]);
        LeOne(Keys(entries), sorted[child + 1], sorted[child + 1]);
        if less {
          c := child + 1;
        }
      }
    }

    method Swap(i: nat, j: nat)
      requires i < sorted.Length && j < sorted.Length
      modifies sorted
      ensures sorted[..] == Swapped(old(sorted[..]), i, j)
      ensures Inside(old(sorted[..]), |entries|) ==> Inside(sorted[..], |entries|)
    {
      sorted[i], sorted[j] := sorted[j], sorted[i];
    }

    // mz_zip_reader_sort_central_dir_offsets_by_filename
    method SortByFilename()
      requires sorted[..] == Identity(|entries|)
      modifies sorted
      ensures IsIndex(Keys(entries), sorted[..])
    {
      ghost var keys, s := Keys(entries), sorted[..];
      var size := |entries|;
      if size <= 1 {
        return;
      }
      BuildHeap();
      var end := size - 1;
      while end > 0
        invariant end < size && Heap(keys, sorted[..], 0, end + 1) && Placed(keys, sorted[..], end + 1)
        invariant multiset(sorted[..]) == multiset(s) && Inside(sorted[..], |entries|)
      {
        end := PlaceTop(end);
      }
      Lowest(keys, sorted[..]);
    }

    method BuildHeap()
      requires sorted.Length == |entries| >= 2 && Inside(sorted[..], |entries|)
      modifies sorted
      ensures Heap(Keys(entries), sorted[..], 0, |entries|) && multiset(sorted[..]) == multiset(old(sorted[..])) && Inside(sorted[..], |entries|)
    {
      ghost var s := sorted[..];
      var start: nat := (sorted.Length - 2) / 2;
      while true
        invariant start < sorted.Length && Heap(Keys(entries), sorted[..], start + 1, |entries|)
        invariant multiset(sorted[..]) == multiset(s) && Inside(sorted[..], |entries|)
        decreases start
      {
        ghost var t := sorted[..];
        SiftDown(start, sorted.Length);
        SamePartWhole(t, sorted[..], sorted.Length);
        if start == 0 {
          break;
        }
        start := start - 1;
      }
    }

    method PlaceTop(end: nat) returns (next: nat)
      requires 0 < end < sorted.Length == |entries| && Inside(sorted[..], |entries|)
      requires Heap(Keys(entries), sorted[..], 0, end + 1) && Placed(Keys(entries), sorted[..], end + 1)
      modifies sorted
      ensures next == end - 1 && Heap(Keys(entries), sorted[..], 0, end) && Placed(Keys(entries), sorted[..], end)
      ensures multiset(sorted[..]) == multiset(old(sorted[..])) && Inside(sorted[..], |entries|)
    {
      ghost var keys := Keys(entries);
      TopPlaced(keys, sorted[..], end);
      SwappedSame(sorted[..], end, 0);
      Swap(end, 0);
      ghost var t := sorted[..];
      SiftDown(0, end);
      StillPlaced(keys, t, sorted[..], end);
      SamePartWhole(t, sorted[..], end);
      next := end - 1;
    }

    // mz_zip_filename_compare with the name that strlen cut to 32 bits
    method FilenameCompare(l: nat, name: seq<byte>) returns (c: int)
      requires l < |entries| && Fits(entries[l]) && |name| < 0x1_0000_0000
      ensures c == 0 <==> Fold(entries[l].name) == Fold(name)
      ensures |name| < 0x8000_0000 ==> (c < 0 <==> Before(Fold(entries[l].name), Fold(name)))
    {
      var x := entries[l].name;
      var n, i := if |x| < |name| then |x| else |name|, 0;
      while i < n && Lower(x[i]) == Lower(name[i])
        invariant i <= n && Fold(x)[..i] == Fold(name)[..i]
      {
        i := i + 1;
      }
      BeforeAt(Fold(x), Fold(name), i);
      if i == n {
        c := (|x| - |name|) % 0x1_0000_0000;
        if c >= 0x8000_0000 {
          c := c - 0x1_0000_0000;
        }
      } else {
        c := Lower(x[i]) - Lower(name[i]);
      }
    }

    // mz_zip_locate_file_binary_search
    method BinarySearch(name: seq<byte>) returns (r: Found)
      requires Valid() && sortNames
      ensures r != BadParameter
      ensures var key := Fold(Cut(name));
              match r
              case Found(i) => i < |entries| && Keys(entries)[i] == key
              case _ => key !in Keys(entries)
    {
      ghost var keys, s := Keys(entries), sorted[..];
      var cut := Cut(name);
      ghost var key := Fold(cut);
      SameInside(s, |entries|);
      if |cut| >= 0x8000_0000 {
        LongIsNoKey(entries, cut);
      }
      var l, h := 0, |entries| - 1;
      while l <= h
        invariant 0 <= l <= h + 1 <= |entries|
        invariant |cut| < 0x8000_0000 ==> Between(keys, s, key, l, h + 1)
        decreases h - l
      {
        var m := l + (h - l) / 2;
        var index := sorted[m];
        var c := FilenameCompare(index, cut);
        if c == 0 {
          return Found(index);
        }
        if |cut| < 0x8000_0000 {
          OneBefore(keys[index], key);
          Narrower(keys, s, key, l, h + 1, m);
        }
        if c < 0 {
          l := m + 1;
        } else {
          h := m - 1;
        }
      }
      if |cut| < 0x8000_0000 {
        NothingBetween(keys, s, key, l);
      }
      r := NotFound;
    }

    // mz_zip_string_equal
    method StringEqual(x: seq<byte>, y: seq<byte>, caseSensitive: bool) returns (same: bool)
      requires |x| == |y|
      ensures same == Same(x, y, caseSensitive)
    {
      if caseSensitive {
        return x == y;
      }
      var i := 0;
      while i < |x|
        invariant i <= |x| && Fold(x)[..i] == Fold(y)[..i]
      {
        if Lower(x[i]) != Lower(y[i]) {
          assert Fold(x)[i] != Fold(y)[i];
          return false;
        }
        i := i + 1;
      }
      assert Fold(x) == Fold(x)[..i] && Fold(y) == Fold(y)[..i];
      same := true;
    }

    // The loop over the path, from the end of the name.
    method SkipPath(name: seq<byte>) returns (ofs: nat)
      requires name != []
      ensures ofs == BaseStart(name)
    {
      ofs := |name|;
      while ofs > 0 && !IsSeparator(name[ofs - 1])
        invariant ofs <= |name| && BaseStart(name[..ofs]) == BaseStart(name)
      {
        assert name[..ofs][..ofs - 1] == name[..ofs - 1];
        ofs := ofs - 1;
      }
    }

    // The body of the loop over the directory.
    method IsMatch(e: Entry, name: seq<byte>, comment: seq<byte>, caseSensitive: bool, ignorePath: bool) returns (yes: bool)
      ensures yes == Matches(e, name, WithComment(comment), caseSensitive, ignorePath)
    {
      SameLength(comment, e.comment, caseSensitive);
      SameLength(name, if ignorePath then e.name[BaseStart(e.name)..] else e.name, caseSensitive);
      if |e.name| < |name| {
        return false;
      }
      if |comment| != 0 {
        if |e.comment| != |comment| {
          return false;
        }
        var same := StringEqual(comment, e.comment, caseSensitive);
        if !same {
          return false;
        }
      }
      var base := e.name;
      if ignorePath && |base| != 0 {
        var ofs := SkipPath(base);
        base := base[ofs..];
      }
      if |base| != |name| {
        return false;
      }
      yes := StringEqual(name, base, caseSensitive);
    }

    // mz_zip_reader_locate_file_v2
    method Locate(name: seq<byte>, comment: Comment, caseSensitive: bool, ignorePath: bool) returns (r: Found)
      requires Valid()
      ensures var indexed := sortNames && reading && !ignorePath && !caseSensitive && comment == NoComment && entries != [];
              var sought := if indexed then Cut(name) else name;
              match r
              case Found(i) =>
                i < |entries| && Matches(entries[i], sought, comment, caseSensitive, ignorePath) &&
                (indexed || forall k :: 0 <= k < i ==> !Matches(entries[k], sought, comment, caseSensitive, ignorePath))
              case _ => forall k :: 0 <= k < |entries| ==> !Matches(entries[k], sought, comment, caseSensitive, ignorePath)
      // a name or comment too long for an entry is refused, unless the index is asked
      ensures r == BadParameter <==> !(sortNames && reading && !ignorePath && !caseSensitive && comment == NoComment && entries != []) &&
                                     (|name| >= 0x1_0000 || (comment != NoComment && |comment.text| >= 0x1_0000))
    {
      hide IsIndex, BaseStart;
      if sortNames && reading && !ignorePath && !caseSensitive && comment == NoComment && sorted.Length != 0 {
        r := BinarySearch(name);
        return;
      }
      if |name| > 65535 {
        return BadParameter;
      }
      var text := if comment == NoComment then [] else comment.text;
      if |text| > 65535 {
        return BadParameter;
      }
      var i := 0;
      while i < |entries|
        invariant i <= |entries| && forall k :: 0 <= k < i ==> !Matches(entries[k], name, comment, caseSensitive, ignorePath)
      {
        var yes := IsMatch(entries[i], name, text, caseSensitive, ignorePath);
        if yes {
          return Found(i);
        }
        i := i + 1;
      }
      r := NotFound;
    }
  }

  // strlen as a 32-bit number
  function Cut(name: seq<byte>): (r: seq<byte>)
    ensures |name| < 0x1_0000_0000 ==> r == name
    ensures |r| == |name| % 0x1_0000_0000
  {
    name[..|name| % 0x1_0000_0000]
  }

  lemma LongIsNoKey(es: seq<Entry>, name: seq<byte>)
    requires forall i :: 0 <= i < |es| ==> Fits(es[i])
    requires |name| >= 0x1_0000
    ensures Fold(name) !in Keys(es)
  {
    forall i | 0 <= i < |es| ensures Keys(es)[i] != Fold(name) {
      assert |Keys(es)[i]| == |es[i].name|;
    }
  }

  // The search in the index finds what the scan finds in every directory exactly if the name is
  // not cut to 32 bits of length, or cut to one that is too long for any entry.
  lemma IndexAgrees(name: seq<byte>)
    ensures (forall es: seq<Entry> :: AllFit(es) ==> (Fold(Cut(name)) in Keys(es) <==> Fold(name) in Keys(es)))
            <==> |name| < 0x1_0000_0000 || |name| % 0x1_0000_0000 >= 0x1_0000
  {
    if |name| >= 0x1_0000_0000 {
      forall es: seq<Entry> | AllFit(es) ensures Fold(name) !in Keys(es) {
        LongIsNoKey(es, name);
      }
      if |Cut(name)| < 0x1_0000 {
        var es := [Entry(Cut(name), [])];
        assert Keys(es)[0] == Fold(Cut(name)) && AllFit(es);
      } else {
        forall es: seq<Entry> | AllFit(es) ensures Fold(Cut(name)) !in Keys(es) {
          LongIsNoKey(es, Cut(name));
        }
      }
    }
  }

  predicate AllFit(es: seq<Entry>) {
    forall i :: 0 <= i < |es| ==> Fits(es[i])
  }

  lemma Lowest(keys: seq<seq<byte>>, s: seq<nat>)
    requires Placed(keys, s, 1)
    ensures Placed(keys, s, 0)
  {
  }

  // Under one key or two, the positions under root in a heap.
  lemma SmallerUnder(keys: seq<seq<byte>>, s: seq<nat>, end: nat, root: nat, child: nat)
    requires root < end <= |s| && child < end && Le(keys, s[child], s[root])
    requires forall k: nat :: (k == 2 * root + 1 || k == 2 * root + 2) && k < end ==> Le(keys, s[k], s[child])
    ensures forall k: nat :: (k == 2 * root + 1 || k == 2 * root + 2) && k < end ==> Le(keys, s[k], s[root])
  {
    forall k: nat | (k == 2 * root + 1 || k == 2 * root + 2) && k < end ensures Le(keys, s[k], s[root]) {
      LeLe(keys, s[k], s[child], s[root]);
    }
  }
}
