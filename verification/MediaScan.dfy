/** The word, extension and season/episode scanners of the media type facet (`sidecar/src/media_type.rs`),
    over bytes. Word and extension scans look only at successive disjoint matches. */
module MediaScan {
  import opened Bytes

  type Text = seq<uint8>

  predicate IsWord(b: uint8) {
    IsDigit(b) || IsAlpha(b)
  }

  // ----- occurrences -----

  predicate MatchAt(h: Text, n: Text, i: nat) {
    i + |n| <= |h| && h[i..i + |n|] == n
  }

  predicate ClearBefore(h: Text, i: nat)
    requires i <= |h|
  {
    i == 0 || !IsWord(h[i - 1])
  }

  predicate ClearAfter(h: Text, i: nat)
    requires i <= |h|
  {
    i == |h| || !IsWord(h[i])
  }

  /** A match with no word byte next to it; an extension may follow a word byte. */
  predicate Occurs(h: Text, n: Text, i: nat, extension: bool) {
    MatchAt(h, n, i) && (extension || ClearBefore(h, i)) && ClearAfter(h, i + |n|)
  }

  /** The first match at or after `from`. */
  function FirstMatch(h: Text, n: Text, from: nat): (r: Option<nat>)
    ensures r.Some? ==> from <= r.value && MatchAt(h, n, r.value)
    ensures r.Some? ==> forall i :: from <= i < r.value ==> !MatchAt(h, n, i)
    ensures r.None? ==> forall i :: from <= i ==> !MatchAt(h, n, i)
    decreases |h| - from
  {
    if from + |n| > |h| then None else if MatchAt(h, n, from) then Some(from) else FirstMatch(h, n, from + 1)
  }

  /** Where the search goes on after a match at i. */
  function Past(n: Text, i: nat): nat {
    i + if n == [] then 1 else |n|
  }

  /** Some match of the disjoint series from `from` on is an occurrence. */
  ghost predicate Scans(h: Text, n: Text, from: nat, extension: bool)
    decreases |h| + 1 - from
  {
    var m := FirstMatch(h, n, from);
    m.Some? && (Occurs(h, n, m.value, extension) || Scans(h, n, Past(n, m.value), extension))
  }

  method ScanMatches(h: Text, n: Text, extension: bool) returns (found: bool)
    ensures found <==> Scans(h, n, 0, extension)
  {
    var from := 0;
    while true
      invariant Scans(h, n, 0, extension) <==> Scans(h, n, from, extension)
      decreases |h| + 1 - from
    {
      var m := FirstMatch(h, n, from);
      if m.None? {
        return false;
      }
      if (extension || ClearBefore(h, m.value)) && ClearAfter(h, m.value + |n|) {
        return true;
      }
      from := Past(n, m.value);
    }
  }

  method ContainsWord(h: Text, needle: Text) returns (found: bool)
    ensures found <==> needle != [] && Scans(h, Lower(needle), 0, false)
  {
    if needle == [] {
      return false;
    }
    found := ScanMatches(h, Lower(needle), false);
  }

  method ContainsExtension(h: Text, ext: Text) returns (found: bool)
    ensures found <==> Scans(h, ext, 0, true)
  {
    found := ScanMatches(h, ext, true);
  }

  // ----- when the disjoint scan finds every occurrence -----

  /** The needle can overlap itself at distance d. */
  predicate Border(n: Text, d: nat) {
    0 < d < |n| && n[d..] == n[..|n| - d]
  }

  /** An overlapping word match could begin right after a byte that is not a word byte. */
  ghost predicate HidesWords(n: Text) {
    exists d :: Border(n, d) && !IsWord(n[d - 1])
  }

  /** An extension match could be refused because of a word byte of an overlapping one. */
  ghost predicate HidesExtensions(n: Text) {
    exists d :: Border(n, d) && IsWord(n[|n| - d])
  }

  lemma {:induction false} ScanSound(h: Text, n: Text, from: nat, extension: bool) returns (i: nat)
    requires Scans(h, n, from, extension)
    ensures from <= i && Occurs(h, n, i, extension)
    decreases |h| + 1 - from
  {
    i := FirstMatch(h, n, from).value;
    if !Occurs(h, n, i, extension) {
      i := ScanSound(h, n, Past(n, i), extension);
    }
  }

  /** Overlapping matches make a border. */
  lemma OverlapIsBorder(h: Text, n: Text, i: nat, j: nat)
    requires MatchAt(h, n, i) && MatchAt(h, n, j) && i < j < i + |n|
    ensures Border(n, j - i) && h[j - 1] == n[j - i - 1] && h[i + |n|] == n[|n| - (j - i)]
  {
    var d := j - i;
    var a, b := h[i..i + |n|], h[j..j + |n|];
    assert forall k :: 0 <= k < |n| - d ==> a[d + k] == h[j + k] && b[k] == h[j + k];
    assert a[d - 1] == h[j - 1] && b[|n| - d] == h[i + |n|];
  }

  lemma {:induction false} ScanComplete(h: Text, n: Text, from: nat, i: nat, extension: bool)
    requires from <= i && Occurs(h, n, i, extension)
    requires if extension then !HidesExtensions(n) else !HidesWords(n)
    ensures Scans(h, n, from, extension)
    decreases |h| + 1 - from
  {
    var m := FirstMatch(h, n, from).value;
    if m < i && !Occurs(h, n, m, extension) {
      if i < m + |n| {
        OverlapIsBorder(h, n, m, i);
      }
      ScanComplete(h, n, Past(n, m), i, extension);
    }
  }

  /** When the first match is refused and there is no room for a disjoint second one, nothing is found. */
  lemma ScanMisses(h: Text, n: Text, i: nat, extension: bool)
    requires n != [] && FirstMatch(h, n, 0) == Some(i) && !Occurs(h, n, i, extension) && |h| < i + 2 * |n|
    ensures !Scans(h, n, 0, extension)
  {
    assert FirstMatch(h, n, i + |n|).None?;
  }

  ghost predicate FindsAll(n: Text, extension: bool) {
    forall h, i :: Occurs(h, n, i, extension) ==> Scans(h, n, 0, extension)
  }

  /** The word scan finds a whole-word occurrence in every text that has one, if and only if the needle
      has no self-overlap beginning right after a byte that is not a word byte. */
  lemma WordScanExact(n: Text)
    requires n != []
    ensures FindsAll(n, false) <==> !HidesWords(n)
  {
    if HidesWords(n) {
      var d: nat :| Border(n, d) && !IsWord(n[d - 1]);
      var h := HiddenWord(n, d);
      assert Occurs(h, n, d + 1, false) && !Scans(h, n, 0, false);
    } else {
      forall h, i | Occurs(h, n, i, false)
        ensures Scans(h, n, 0, false)
      {
        ScanComplete(h, n, 0, i, false);
      }
    }
  }

  /** The extension scan finds every extension, if and only if the needle has no self-overlap whose first
      byte past the earlier match is a word byte. */
  lemma ExtensionScanExact(n: Text)
    ensures FindsAll(n, true) <==> !HidesExtensions(n)
  {
    if HidesExtensions(n) {
      var d: nat :| Border(n, d) && IsWord(n[|n| - d]);
      var h := HiddenExtension(n, d);
      assert Occurs(h, n, d, true) && !Scans(h, n, 0, true);
    } else {
      forall h, i | Occurs(h, n, i, true)
        ensures Scans(h, n, 0, true)
      {
        ScanComplete(h, n, 0, i, true);
      }
    }
  }

  lemma TwoMatches(n: Text, d: nat)
    requires Border(n, d)
    ensures var t := n[..d] + n; MatchAt(t, n, 0) && MatchAt(t, n, d) && t[d - 1] == n[d - 1] && t[|n|] == n[|n| - d]
  {
    var t := n[..d] + n;
    assert t[..|n|] == n[..d] + n[..|n| - d];
    assert n == n[..d] + n[d..];
    assert t[d..] == n;
  }

  lemma HiddenWord(n: Text, d: nat) returns (h: Text)
    requires Border(n, d) && !IsWord(n[d - 1])
    ensures Occurs(h, n, d + 1, false) && !Scans(h, n, 0, false)
  {
    var c: uint8 := if n[0] == 0x61 then 0x62 else 0x61;
    var t := n[..d] + n;
    TwoMatches(n, d);
    h := [c] + t;
    MatchAfter(c, t, n, 0);
    MatchAfter(c, t, n, d);
    NoMatchFirst(c, t, n);
    assert FirstMatch(h, n, 0) == Some(1);
    assert h[d] == t[d - 1];
    ScanMisses(h, n, 1, false);
  }

  lemma MatchAfter(c: uint8, t: Text, n: Text, k: nat)
    requires MatchAt(t, n, k)
    ensures MatchAt([c] + t, n, k + 1)
  {
    assert ([c] + t)[k + 1..k + 1 + |n|] == t[k..k + |n|];
  }

  lemma NoMatchFirst(c: uint8, t: Text, n: Text)
    requires n != [] && c != n[0]
    ensures !MatchAt([c] + t, n, 0)
  {
    assert |n| <= 1 + |t| ==> ([c] + t)[0..0 + |n|][0] == c;
  }

  lemma HiddenExtension(n: Text, d: nat) returns (h: Text)
    requires Border(n, d) && IsWord(n[|n| - d])
    ensures Occurs(h, n, d, true) && !Scans(h, n, 0, true)
  {
    h := n[..d] + n;
    TwoMatches(n, d);
    ScanMisses(h, n, 0, true);
  }

  // ----- season and episode markers -----

  const LETTER_S: uint8 := 0x73
  const LETTER_E: uint8 := 0x65

  predicate Digits(h: Text, i: nat, j: nat)
    requires j <= |h|
  {
    forall k :: i <= k < j ==> IsDigit(h[k])
  }

  /** h[i..k] is an s, one or two digits up to j, an e and one to three digits, standing alone. */
  predicate MarkerAt(h: Text, i: nat, j: nat, k: nat) {
    && i + 1 < j <= i + 3 && j + 1 < k <= j + 4 && k <= |h|
    && h[i] == LETTER_S && Digits(h, i + 1, j) && h[j] == LETTER_E && Digits(h, j + 1, k)
    && ClearBefore(h, i) && ClearAfter(h, k)
  }

  method SkipDigits(h: Text, start: nat, most: nat) returns (end: nat)
    requires start <= |h|
    ensures start <= end <= |h| && end - start <= most && Digits(h, start, end)
    ensures end == |h| || end - start == most || !IsDigit(h[end])
  {
    end := start;
    while end < |h| && IsDigit(h[end]) && end - start < most
      invariant start <= end <= |h| && end - start <= most && Digits(h, start, end)
    {
      end := end + 1;
    }
  }

  /** The greedy scan succeeds exactly when some marker exists. */
  method ContainsSeasonEpisode(h: Text) returns (found: bool)
    ensures found <==> exists i, j, k :: MarkerAt(h, i, j, k)
  {
    var i := 0;
    while i < |h|
      invariant i <= |h|
      invariant forall i': nat, j: nat, k: nat :: i' < i ==> !MarkerAt(h, i', j, k)
    {
      var here := MarkerHere(h, i);
      if here {
        return true;
      }
      i := i + 1;
    }
    found := false;
  }

  method MarkerHere(h: Text, i: nat) returns (found: bool)
    requires i < |h|
    ensures found <==> exists j, k :: MarkerAt(h, i, j, k)
  {
    if h[i] != LETTER_S || !(i == 0 || !IsWord(h[i - 1])) {
      return false;
    }
    var j := SkipDigits(h, i + 1, 2);
    if j == i + 1 || j == |h| || h[j] != LETTER_E {
      assert forall j', k' :: MarkerAt(h, i, j', k') ==> j' == j;
      return false;
    }
    var k := SkipDigits(h, j + 1, 3);
    assert forall j', k' :: MarkerAt(h, i, j', k') ==> j' == j && k' == k;
    found := k > j + 1 && (k == |h| || !IsWord(h[k]));
    assert found ==> MarkerAt(h, i, j, k);
  }
}
