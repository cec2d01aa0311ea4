/** Backend.java's query logic: the quote-aware field splitter inside
    readData, and getRange, filterOldSongs and fiveMostDanceable over the
    songs the tree's iterator hands out, with the state they share. */
module Backend {
  import opened Outcomes
  import Trees

  // ---------------------------------------------------------------------
  // Splitting a CSV line
  // ---------------------------------------------------------------------

  const Quote: char := '"'
  const Comma: char := ','

  /** The line with every double quote removed. */
  function Unquoted(s: string): (r: string)
    ensures Quote !in r
    ensures |r| <= |s|
  {
    if s == [] then []
    else (if s[0] == Quote then [] else [s[0]]) + Unquoted(s[1..])
  }

  /** The commas of `s` that lie outside quotes, when reading starts inside
      quotes iff `inQuotes`. */
  function OutsideCommas(s: string, inQuotes: bool): nat {
    if s == [] then 0
    else if s[0] == Quote then OutsideCommas(s[1..], !inQuotes)
    else (if s[0] == Comma && !inQuotes then 1 else 0) + OutsideCommas(s[1..], inQuotes)
  }

  /** The fields of `s`, read from the right: a quote toggles the quoted
      state and is dropped, a comma outside quotes starts a new field, any
      other character joins the field it sits in. */
  function Fields(s: string, inQuotes: bool): (r: seq<string>)
    ensures |r| == 1 + OutsideCommas(s, inQuotes)
    ensures forall i :: 0 <= i < |r| ==> Quote !in r[i]
  {
    if s == [] then [""]
    else if s[0] == Quote then Fields(s[1..], !inQuotes)
    else if s[0] == Comma && !inQuotes then [""] + Fields(s[1..], inQuotes)
    else
      var rest := Fields(s[1..], inQuotes);
      [[s[0]] + rest[0]] + rest[1..]
  }

  /** The fields glued back together with commas. */
  function Join(fields: seq<string>): string
    decreases |fields|
  {
    if fields == [] then ""
    else if |fields| == 1 then fields[0]
    else fields[0] + [Comma] + Join(fields[1..])
  }

  lemma JoinFront(c: char, fields: seq<string>)
    requires fields != []
    ensures Join([[c] + fields[0]] + fields[1..]) == [c] + Join(fields)
  {
    var g := [[c] + fields[0]] + fields[1..];
    assert g[1..] == fields[1..];
  }

  /** Joining the fields with commas gives back the line without its
      quotes: no character other than a quote is lost or added. */
  lemma {:induction false} JoinFields(s: string, inQuotes: bool)
    ensures Join(Fields(s, inQuotes)) == Unquoted(s)
    decreases |s|
  {
    if s != [] {
      JoinFields(s[1..], if s[0] == Quote then !inQuotes else inQuotes);
      if s[0] != Quote && !(s[0] == Comma && !inQuotes) {
        JoinFront(s[0], Fields(s[1..], inQuotes));
      } else if s[0] != Quote {
        var rest := Fields(s[1..], inQuotes);
        assert ([""] + rest)[1..] == rest;
      }
    }
  }

  /** `buffer` glued to the front of the first field. */
  function Prefixed(buffer: string, fields: seq<string>): seq<string>
    requires fields != []
  {
    [buffer + fields[0]] + fields[1..]
  }

  lemma PrefixedNothing(fields: seq<string>)
    requires fields != []
    ensures Prefixed("", fields) == fields
  {
    assert "" + fields[0] == fields[0];
  }

  /** A comma outside quotes closes the buffered field. */
  lemma PrefixedComma(buffer: string, rest: seq<string>)
    requires rest != []
    ensures Prefixed(buffer, [""] + rest) == [buffer] + rest
  {
    assert buffer + "" == buffer;
    assert ([""] + rest)[0] == "" && ([""] + rest)[1..] == rest;
  }

  /** Any other character moves from the field into the buffer. */
  lemma PrefixedChar(buffer: string, c: char, rest: seq<string>)
    requires rest != []
    ensures Prefixed(buffer, [[c] + rest[0]] + rest[1..]) == Prefixed(buffer + [c], rest)
  {
    var f := [[c] + rest[0]] + rest[1..];
    assert f[0] == [c] + rest[0] && f[1..] == rest[1..];
    assert buffer + ([c] + rest[0]) == (buffer + [c]) + rest[0];
  }

  /** The character loop of readData (its lines 40-54): a quote toggles
      `inQuotes`, a comma outside quotes closes the buffered field, any
      other character is buffered; the last buffer is the last field. */
  method SplitFields(line: string) returns (values: seq<string>)
    ensures values == Fields(line, false)
    ensures Join(values) == Unquoted(line)
    ensures forall i :: 0 <= i < |values| ==> Quote !in values[i]
    ensures |values| == 1 + OutsideCommas(line, false)
  {
    values := [];
    var inQuotes := false;
    var buffer: string := "";
    var i := 0;
    PrefixedNothing(Fields(line, false));
    assert line[0..] == line;
    while i < |line|
      invariant 0 <= i <= |line|
      invariant Fields(line, false) == values + Prefixed(buffer, Fields(line[i..], inQuotes))
    {
      var c := line[i];
      assert line[i..][0] == c && line[i..][1..] == line[i + 1..];
      if c == Quote {
        inQuotes := !inQuotes;
      } else if c == Comma && !inQuotes {
        var rest := Fields(line[i + 1..], inQuotes);
        PrefixedComma(buffer, rest);
        PrefixedNothing(rest);
        Trees.ConcatAssoc(values, [buffer], rest);
        values := values + [buffer];
        buffer := "";
      } else {
        PrefixedChar(buffer, c, Fields(line[i + 1..], inQuotes));
        buffer := buffer + [c];
      }
      i := i + 1;
    }
    assert line[i..] == [];
    assert buffer + "" == buffer && [""][1..] == [];
    assert Prefixed(buffer, [""]) == [buffer];
    values := values + [buffer];
    JoinFields(line, false);
  }

  // ---------------------------------------------------------------------
  // Songs and the backend's state
  // ---------------------------------------------------------------------

  /** Song.java's record. */
  datatype Song = Song(
    title: string, artist: string, genres: string,
    year: int, bpm: int, energy: int, danceability: int, loudness: int, liveness: int)

  /** The fields Backend keeps between calls: the list saved by the last
      getRange (`BPMSongsList`), `maxYearFilter` and `isGetRangeCalled`. */
  datatype BackendState = BackendState(saved: seq<Song>, maxYearFilter: int, isGetRangeCalled: bool)

  /** `maxYearFilter` before any filterOldSongs call. */
  const DefaultMaxYear: int := 2030

  function NewBackend(): BackendState {
    BackendState([], DefaultMaxYear, false)
  }

  function Titles(songs: seq<Song>): (r: seq<string>)
    ensures |r| == |songs|
    ensures forall i :: 0 <= i < |r| ==> r[i] == songs[i].title
  {
    if songs == [] then [] else [songs[0].title] + Titles(songs[1..])
  }

  // ---------------------------------------------------------------------
  // Filters
  // ---------------------------------------------------------------------

  /** getRange's test: BPM within [low, high] and on the chart no later than
      `maxYear`. */
  predicate InRange(s: Song, low: int, high: int, maxYear: int) {
    s.bpm >= low && s.bpm <= high && s.year <= maxYear
  }

  /** The songs passing getRange's test, in the order given. */
  function Selected(songs: seq<Song>, low: int, high: int, maxYear: int): (r: seq<Song>)
    ensures |r| <= |songs|
    ensures forall i :: 0 <= i < |r| ==> InRange(r[i], low, high, maxYear)
  {
    if songs == [] then []
    else
      (if InRange(songs[0], low, high, maxYear) then [songs[0]] else [])
      + Selected(songs[1..], low, high, maxYear)
  }

  /** Each passing song keeps its multiplicity and every other song is
      dropped. */
  lemma {:induction false} SelectedCounts(songs: seq<Song>, low: int, high: int, maxYear: int)
    ensures forall x :: multiset(Selected(songs, low, high, maxYear))[x]
                     == if InRange(x, low, high, maxYear) then multiset(songs)[x] else 0
    decreases |songs|
  {
    if songs != [] {
      SelectedCounts(songs[1..], low, high, maxYear);
      assert songs == [songs[0]] + songs[1..];
    }
  }

  /** The songs on the chart no later than `maxYear`, in the order given. */
  function NotAfter(songs: seq<Song>, maxYear: int): (r: seq<Song>)
    ensures |r| <= |songs|
    ensures forall i :: 0 <= i < |r| ==> r[i].year <= maxYear
  {
    if songs == [] then []
    else (if songs[0].year <= maxYear then [songs[0]] else []) + NotAfter(songs[1..], maxYear)
  }

  /** Each song on the chart by `maxYear` keeps its multiplicity and every
      other song is dropped. */
  lemma {:induction false} NotAfterCounts(songs: seq<Song>, maxYear: int)
    ensures forall x :: multiset(NotAfter(songs, maxYear))[x]
                     == if x.year <= maxYear then multiset(songs)[x] else 0
    decreases |songs|
  {
    if songs != [] {
      NotAfterCounts(songs[1..], maxYear);
      assert songs == [songs[0]] + songs[1..];
    }
  }

  /** The year filter keeps order: filtering a concatenation filters each
      part. */
  lemma {:induction false} NotAfterConcat(a: seq<Song>, b: seq<Song>, maxYear: int)
    ensures NotAfter(a + b, maxYear) == NotAfter(a, maxYear) + NotAfter(b, maxYear)
    decreases |a|
  {
    if a == [] {
      assert a + b == b;
    } else {
      assert (a + b)[0] == a[0] && (a + b)[1..] == a[1..] + b;
      NotAfterConcat(a[1..], b, maxYear);
    }
  }

  // ---------------------------------------------------------------------
  // Stable sorting
  // ---------------------------------------------------------------------

  /** The two comparators: Comparator.comparingInt(getBPM), and
      comparingInt(getDanceability).reversed(), which orders as the negated
      danceability does. */
  datatype SortKey = ByBPM | ByDanceabilityReversed

  function KeyOf(k: SortKey, s: Song): int {
    match k
    case ByBPM => s.bpm
    case ByDanceabilityReversed => -s.danceability
  }

  predicate SortedBy(s: seq<Song>, k: SortKey) {
    forall i, j :: 0 <= i < j < |s| ==> KeyOf(k, s[i]) <= KeyOf(k, s[j])
  }

  /** Insert `x` before the first element whose key is not below its own. */
  function InsertByKey(x: Song, t: seq<Song>, k: SortKey): (r: seq<Song>)
    ensures |r| == |t| + 1
  {
    if t == [] || KeyOf(k, x) <= KeyOf(k, t[0]) then [x] + t
    else [t[0]] + InsertByKey(x, t[1..], k)
  }

  /** Insertion adds `x` and loses nothing. */
  lemma {:induction false} InsertByKeyPermutes(x: Song, t: seq<Song>, k: SortKey)
    ensures multiset(InsertByKey(x, t, k)) == multiset(t) + multiset{x}
    decreases |t|
  {
    if t != [] && KeyOf(k, t[0]) < KeyOf(k, x) {
      InsertByKeyPermutes(x, t[1..], k);
      assert t == [t[0]] + t[1..];
    }
  }

  /** List.sort, a stable sort, modelled as insertion sort: both give the
      same list (see StableSortIsUnique). The result is a permutation. */
  function SortByKey(s: seq<Song>, k: SortKey): (r: seq<Song>)
    ensures |r| == |s|
  {
    if s == [] then [] else InsertByKey(s[0], SortByKey(s[1..], k), k)
  }

  /** The sort is a permutation. */
  lemma {:induction false} SortByKeyPermutes(s: seq<Song>, k: SortKey)
    ensures multiset(SortByKey(s, k)) == multiset(s)
    decreases |s|
  {
    if s != [] {
      SortByKeyPermutes(s[1..], k);
      InsertByKeyPermutes(s[0], SortByKey(s[1..], k), k);
      assert s == [s[0]] + s[1..];
    }
  }

  lemma SortedCons(a: Song, t: seq<Song>, k: SortKey)
    requires SortedBy(t, k)
    requires forall j :: 0 <= j < |t| ==> KeyOf(k, a) <= KeyOf(k, t[j])
    ensures SortedBy([a] + t, k)
  {
    var r := [a] + t;
    forall i, j | 0 <= i < j < |r| ensures KeyOf(k, r[i]) <= KeyOf(k, r[j]) {
      assert r[j] == t[j - 1];
      if i > 0 { assert r[i] == t[i - 1]; }
    }
  }

  /** Every element of the inserted list is `x` or came from `t`. */
  lemma InsertByKeyFrom(x: Song, t: seq<Song>, k: SortKey, j: int)
    requires 0 <= j < |InsertByKey(x, t, k)|
    ensures InsertByKey(x, t, k)[j] == x || InsertByKey(x, t, k)[j] in t
  {
    var r := InsertByKey(x, t, k);
    InsertByKeyPermutes(x, t, k);
    assert r[j] in multiset(r);
  }

  lemma {:induction false} InsertByKeySorted(x: Song, t: seq<Song>, k: SortKey)
    requires SortedBy(t, k)
    ensures SortedBy(InsertByKey(x, t, k), k)
    decreases |t|
  {
    if t == [] || KeyOf(k, x) <= KeyOf(k, t[0]) {
      SortedCons(x, t, k);
    } else {
      var t' := t[1..];
      assert SortedBy(t', k);
      InsertByKeySorted(x, t', k);
      var r' := InsertByKey(x, t', k);
      forall j | 0 <= j < |r'| ensures KeyOf(k, t[0]) <= KeyOf(k, r'[j]) {
        InsertByKeyFrom(x, t', k, j);
      }
      SortedCons(t[0], r', k);
    }
  }

  lemma {:induction false} SortByKeySorted(s: seq<Song>, k: SortKey)
    ensures SortedBy(SortByKey(s, k), k)
    decreases |s|
  {
    if s != [] {
      SortByKeySorted(s[1..], k);
      InsertByKeySorted(s[0], SortByKey(s[1..], k), k);
    }
  }

  /** The elements of `s` whose key is `v`, in order. */
  function WithKey(s: seq<Song>, k: SortKey, v: int): seq<Song> {
    if s == [] then []
    else (if KeyOf(k, s[0]) == v then [s[0]] else []) + WithKey(s[1..], k, v)
  }

  lemma {:induction false} WithKeyConcat(a: seq<Song>, b: seq<Song>, k: SortKey, v: int)
    ensures WithKey(a + b, k, v) == WithKey(a, k, v) + WithKey(b, k, v)
    decreases |a|
  {
    if a == [] {
      assert a + b == b;
    } else {
      assert (a + b)[0] == a[0] && (a + b)[1..] == a[1..] + b;
      WithKeyConcat(a[1..], b, k, v);
    }
  }

  lemma WithKeySingle(x: Song, k: SortKey, v: int)
    ensures WithKey([x], k, v) == if KeyOf(k, x) == v then [x] else []
  {
    assert [x][1..] == [];
  }

  /** Inserting `x` puts it ahead of every element with its key. */
  lemma {:induction false} InsertByKeyStable(x: Song, t: seq<Song>, k: SortKey, v: int)
    ensures WithKey(InsertByKey(x, t, k), k, v) == WithKey([x], k, v) + WithKey(t, k, v)
    decreases |t|
  {
    if t == [] || KeyOf(k, x) <= KeyOf(k, t[0]) {
      WithKeyConcat([x], t, k, v);
    } else {
      var t' := t[1..];
      var r' := InsertByKey(x, t', k);
      var wx, wt0, wt' := WithKey([x], k, v), WithKey([t[0]], k, v), WithKey(t', k, v);
      InsertByKeyStable(x, t', k, v);
      assert WithKey(InsertByKey(x, t, k), k, v) == wt0 + WithKey(r', k, v) by {
        assert InsertByKey(x, t, k) == [t[0]] + r';
        WithKeyConcat([t[0]], r', k, v);
      }
      assert WithKey(t, k, v) == wt0 + wt' by {
        assert t == [t[0]] + t';
        WithKeyConcat([t[0]], t', k, v);
      }
      // t[0]'s key is below x's, so at most one of them has key v
      assert wx == [] || wt0 == [] by {
        WithKeySingle(x, k, v);
        WithKeySingle(t[0], k, v);
      }
      SwapEmpty(wt0, wx, wt');
    }
  }

  lemma SwapEmpty(a: seq<Song>, b: seq<Song>, c: seq<Song>)
    requires a == [] || b == []
    ensures a + (b + c) == b + (a + c)
  {
    if a == [] {
      assert a + (b + c) == b + c;
    } else {
      assert b + (a + c) == a + c;
    }
  }

  /** The sort is stable: the elements sharing a key keep their order. */
  lemma {:induction false} SortByKeyStable(s: seq<Song>, k: SortKey, v: int)
    ensures WithKey(SortByKey(s, k), k, v) == WithKey(s, k, v)
    decreases |s|
  {
    if s != [] {
      SortByKeyStable(s[1..], k, v);
      InsertByKeyStable(s[0], SortByKey(s[1..], k), k, v);
      WithKeyConcat([s[0]], s[1..], k, v);
      assert s == [s[0]] + s[1..];
    }
  }

  lemma WithKeyHead(s: seq<Song>, k: SortKey)
    requires s != []
    ensures WithKey(s, k, KeyOf(k, s[0])) == [s[0]] + WithKey(s[1..], k, KeyOf(k, s[0]))
    ensures forall v :: v != KeyOf(k, s[0]) ==> WithKey(s, k, v) == WithKey(s[1..], k, v)
  {
  }

  /** In a sorted list nothing before the first element with key `v` has a
      key of at least `v`... so a non-empty WithKey forces the head's key
      to be at most `v`. */
  lemma {:induction false} SortedHeadBelow(s: seq<Song>, k: SortKey, v: int)
    requires SortedBy(s, k) && WithKey(s, k, v) != []
    ensures KeyOf(k, s[0]) <= v
    decreases |s|
  {
    if KeyOf(k, s[0]) != v {
      assert WithKey(s, k, v) == WithKey(s[1..], k, v);
      SortedHeadBelow(s[1..], k, v);
    }
  }

  /** Two sorted lists with the same elements per key, in the same order,
      are the same list: every stable sort agrees with SortByKey. */
  lemma {:induction false} StableSortIsUnique(r1: seq<Song>, r2: seq<Song>, k: SortKey)
    requires SortedBy(r1, k) && SortedBy(r2, k)
    requires forall v :: WithKey(r1, k, v) == WithKey(r2, k, v)
    ensures r1 == r2
    decreases |r1| + |r2|
  {
    if r1 == [] && r2 == [] {
    } else if r1 == [] {
      WithKeyHead(r2, k);
    } else if r2 == [] {
      WithKeyHead(r1, k);
    } else {
      var m1 := KeyOf(k, r1[0]);
      var m2 := KeyOf(k, r2[0]);
      WithKeyHead(r1, k);
      WithKeyHead(r2, k);
      SortedHeadBelow(r2, k, m1);
      SortedHeadBelow(r1, k, m2);
      assert m1 == m2;
      assert r1[0] == r2[0] by {
        assert WithKey(r1, k, m1)[0] == r1[0];
        assert WithKey(r2, k, m1)[0] == r2[0];
      }
      forall v ensures WithKey(r1[1..], k, v) == WithKey(r2[1..], k, v) {
        if v == m1 {
          assert WithKey(r1, k, v) == [r1[0]] + WithKey(r1[1..], k, v);
          assert WithKey(r2, k, v) == [r2[0]] + WithKey(r2[1..], k, v);
          assert WithKey(r1[1..], k, v) == WithKey(r1, k, v)[1..];
        } else {
          assert WithKey(r1, k, v) == WithKey(r1[1..], k, v);
        }
      }
      StableSortIsUnique(r1[1..], r2[1..], k);
      assert r1 == [r1[0]] + r1[1..] && r2 == [r2[0]] + r2[1..];
    }
  }

  // ---------------------------------------------------------------------
  // The three queries
  // ---------------------------------------------------------------------

  /** getRange: marks getRange as called, keeps the iterated songs within
      [low, high] BPM and the saved year bound, stably sorted by BPM, saves
      them and returns their titles. `iterated` is what the tree's
      iterator handed out, in that order. */
  function GetRange(b: BackendState, iterated: seq<Song>, low: int, high: int): (r: (BackendState, seq<string>))
    ensures r.0.isGetRangeCalled && r.0.maxYearFilter == b.maxYearFilter
    ensures SortedBy(r.0.saved, ByBPM)
    ensures |r.1| == |r.0.saved| && forall i :: 0 <= i < |r.1| ==> r.1[i] == r.0.saved[i].title
  {
    var sorted := SortByKey(Selected(iterated, low, high, b.maxYearFilter), ByBPM);
    SortByKeySorted(Selected(iterated, low, high, b.maxYearFilter), ByBPM);
    (BackendState(sorted, b.maxYearFilter, true), Titles(sorted))
  }

  /** The list getRange saves holds each iterated song that passes its
      test as often as it was iterated, and no other song. */
  lemma GetRangeCounts(b: BackendState, iterated: seq<Song>, low: int, high: int, x: Song)
    ensures multiset(GetRange(b, iterated, low, high).0.saved)[x]
         == if InRange(x, low, high, b.maxYearFilter) then multiset(iterated)[x] else 0
  {
    var chosen := Selected(iterated, low, high, b.maxYearFilter);
    SelectedCounts(iterated, low, high, b.maxYearFilter);
    SortByKeyPermutes(chosen, ByBPM);
  }

  /** Saved songs with equal BPM keep their iteration order. With
      GetRangeCounts and StableSortIsUnique this pins the saved list down
      completely. */
  lemma GetRangeKeepsOrder(b: BackendState, iterated: seq<Song>, low: int, high: int, v: int)
    ensures WithKey(GetRange(b, iterated, low, high).0.saved, ByBPM, v)
         == WithKey(Selected(iterated, low, high, b.maxYearFilter), ByBPM, v)
  {
    SortByKeyStable(Selected(iterated, low, high, b.maxYearFilter), ByBPM, v);
  }

  /** The reversed copy filterOldSongs builds and then discards. */
  function Reverse<T>(s: seq<T>): (r: seq<T>)
    ensures |r| == |s|
    ensures forall i :: 0 <= i < |s| ==> r[i] == s[|s| - 1 - i]
  {
    seq(|s|, i requires 0 <= i < |s| => s[|s| - 1 - i])
  }

  /** Reversing peels off the head and puts it last. */
  lemma ReverseCons<T>(s: seq<T>)
    requires s != []
    ensures Reverse(s) == Reverse(s[1..]) + [s[0]]
  {
    var r, r' := Reverse(s), Reverse(s[1..]) + [s[0]];
    forall i | 0 <= i < |s| ensures r[i] == r'[i] {
      if i < |s| - 1 { assert r'[i] == s[1..][|s| - 2 - i]; }
    }
  }

  /** filterOldSongs: always stores `maxYear`; returns nothing before any
      getRange, and otherwise the titles of the saved songs on the chart no
      later than `maxYear`, in saved order (the reversed copy is built but
      not returned). The saved list stays as it is. */
  function FilterOldSongs(b: BackendState, maxYear: int): (r: (BackendState, seq<string>))
    ensures r.0.maxYearFilter == maxYear
    ensures r.0.saved == b.saved && r.0.isGetRangeCalled == b.isGetRangeCalled
    ensures !b.isGetRangeCalled ==> r.1 == []
    ensures b.isGetRangeCalled ==> |r.1| == |NotAfter(b.saved, maxYear)|
    ensures b.isGetRangeCalled ==>
      forall i :: 0 <= i < |r.1| ==> r.1[i] == NotAfter(b.saved, maxYear)[i].title
  {
    var b' := b.(maxYearFilter := maxYear);
    if !b.isGetRangeCalled then (b', [])
    else
      var filteredTitles := Titles(NotAfter(b.saved, maxYear));
      var _ := Reverse(filteredTitles);
      (b', filteredTitles)
  }

  function Min(a: int, b: int): int {
    if a <= b then a else b
  }

  /** The songs fiveMostDanceable reports, in the order reported: the saved
      songs within the year bound, stably sorted by decreasing danceability,
      cut to the first five, then reversed. */
  function TopDanceable(b: BackendState): seq<Song> {
    var pool := NotAfter(b.saved, b.maxYearFilter);
    var sorted := SortByKey(pool, ByDanceabilityReversed);
    Reverse(sorted[..Min(5, |sorted|)])
  }

  /** One reported line: the danceability, a colon, a space, the title. */
  function Entry(s: Song): string {
    DecimalString(s.danceability) + ": " + s.title
  }

  /** fiveMostDanceable: IllegalStateException before any getRange,
      otherwise one entry per reported song. */
  function FiveMostDanceable(b: BackendState): (r: Result<seq<string>>)
    ensures r.Fail? <==> !b.isGetRangeCalled
    ensures r.Fail? ==> r.error == IllegalState
    ensures r.Ok? ==> |r.value| == Min(5, |NotAfter(b.saved, b.maxYearFilter)|)
    ensures r.Ok? ==> forall i :: 0 <= i < |r.value| ==> r.value[i] == Entry(TopDanceable(b)[i])
  {
    if !b.isGetRangeCalled then Fail(IllegalState)
    else
      var top := TopDanceable(b);
      Ok(seq(|top|, i requires 0 <= i < |top| => Entry(top[i])))
  }

  /** Reversing a list sorted by decreasing danceability gives increasing
      danceability. */
  lemma ReverseAscends(s: seq<Song>)
    requires SortedBy(s, ByDanceabilityReversed)
    ensures forall i, j :: 0 <= i < j < |s| ==> Reverse(s)[i].danceability <= Reverse(s)[j].danceability
  {
    var r := Reverse(s);
    forall i, j | 0 <= i < j < |s| ensures r[i].danceability <= r[j].danceability {
      assert KeyOf(ByDanceabilityReversed, s[|s| - 1 - j]) <= KeyOf(ByDanceabilityReversed, s[|s| - 1 - i]);
    }
  }

  /** The cut of the sorted pool that fiveMostDanceable reports. */
  function Cut(b: BackendState): (r: (seq<Song>, seq<Song>))
    ensures
      var pool := NotAfter(b.saved, b.maxYearFilter);
      && |r.0| == Min(5, |pool|)
      && multiset(r.0) + multiset(r.1) == multiset(pool)
      && SortedBy(r.0 + r.1, ByDanceabilityReversed)
      && TopDanceable(b) == Reverse(r.0)
  {
    var pool := NotAfter(b.saved, b.maxYearFilter);
    var sorted := SortByKey(pool, ByDanceabilityReversed);
    SortByKeySorted(pool, ByDanceabilityReversed);
    SortByKeyPermutes(pool, ByDanceabilityReversed);
    var m := Min(5, |sorted|);
    assert sorted == sorted[..m] + sorted[m..];
    (sorted[..m], sorted[m..])
  }

  lemma TopDanceableOrder(b: BackendState)
    ensures forall i, j :: 0 <= i < j < |TopDanceable(b)| ==>
      TopDanceable(b)[i].danceability <= TopDanceable(b)[j].danceability
  {
    var (first, rest) := Cut(b);
    assert SortedBy(first, ByDanceabilityReversed) by {
      assert forall i :: 0 <= i < |first| ==> first[i] == (first + rest)[i];
    }
    ReverseAscends(first);
  }

  /** In a list sorted by decreasing danceability, nothing after a cut is
      more danceable than anything before it. */
  lemma CutDominates(first: seq<Song>, rest: seq<Song>, x: Song, y: Song)
    requires SortedBy(first + rest, ByDanceabilityReversed)
    requires x in first && y in rest
    ensures y.danceability <= x.danceability
  {
    var i :| 0 <= i < |first| && first[i] == x;
    var j :| 0 <= j < |rest| && rest[j] == y;
    assert (first + rest)[i] == x && (first + rest)[|first| + j] == y;
  }

  lemma TopDanceableDominates(b: BackendState)
    ensures forall x: Song, y: Song ::
      (x in multiset(TopDanceable(b)) && y in multiset(NotAfter(b.saved, b.maxYearFilter)) - multiset(TopDanceable(b)))
        ==> y.danceability <= x.danceability
  {
    var (first, rest) := Cut(b);
    var pool := NotAfter(b.saved, b.maxYearFilter);
    var top := TopDanceable(b);
    assert multiset(top) == multiset(first) by {
      ReverseMultiset(first);
    }
    assert multiset(pool) - multiset(top) == multiset(rest);
    forall x: Song, y: Song | x in multiset(top) && y in multiset(pool) - multiset(top)
      ensures y.danceability <= x.danceability
    {
      assert x in multiset(first) && y in multiset(rest);
      CutDominates(first, rest, x, y);
    }
  }

  /** The reported songs are min(5, n) of the n eligible songs, in
      non-decreasing danceability, and no eligible song left out is more
      danceable than one reported. */
  lemma TopDanceableChoice(b: BackendState)
    ensures
      var pool := NotAfter(b.saved, b.maxYearFilter);
      var top := TopDanceable(b);
      && |top| == Min(5, |pool|)
      && multiset(top) <= multiset(pool)
      && (forall i, j :: 0 <= i < j < |top| ==> top[i].danceability <= top[j].danceability)
      && (forall x, y :: x in multiset(top) && y in multiset(pool) - multiset(top)
            ==> y.danceability <= x.danceability)
  {
    var (first, rest) := Cut(b);
    ReverseMultiset(first);
    TopDanceableOrder(b);
    TopDanceableDominates(b);
  }

  lemma {:induction false} ReverseMultiset<T>(s: seq<T>)
    ensures multiset(Reverse(s)) == multiset(s)
    decreases |s|
  {
    if s != [] {
      ReverseMultiset(s[1..]);
      ReverseCons(s);
      assert s == [s[0]] + s[1..];
    }
  }

  // ---------------------------------------------------------------------
  // Decimal text of an int
  // ---------------------------------------------------------------------

  function DigitChar(d: int): char
    requires 0 <= d < 10
  {
    ('0' as int + d) as char
  }

  /** The decimal digits of `n`, most significant first, without leading
      zeros. */
  function NatDigits(n: nat): (s: string)
    ensures |s| >= 1
    ensures forall i :: 0 <= i < |s| ==> '0' <= s[i] <= '9'
    ensures n > 0 ==> s[0] != '0'
    decreases n
  {
    if n < 10 then [DigitChar(n)] else NatDigits(n / 10) + [DigitChar(n % 10)]
  }

  /** Integer.toString: a minus sign for negative numbers, then the digits. */
  function DecimalString(n: int): string {
    if n < 0 then "-" + NatDigits(-n) else NatDigits(n)
  }

  /** The value of a string of decimal digits. */
  function DigitsValue(s: string): int
    decreases |s|
  {
    if s == [] then 0 else DigitsValue(s[..|s| - 1]) * 10 + (s[|s| - 1] as int - '0' as int)
  }

  /** Integer.parseInt on the strings DecimalString produces. */
  function ParseDecimal(s: string): int {
    if s != [] && s[0] == '-' then -DigitsValue(s[1..]) else DigitsValue(s)
  }

  lemma {:induction false} NatDigitsValue(n: nat)
    ensures DigitsValue(NatDigits(n)) == n
    decreases n
  {
    if n >= 10 {
      NatDigitsValue(n / 10);
      var s := NatDigits(n);
      assert s[..|s| - 1] == NatDigits(n / 10);
    }
  }

  /** The number written in an entry reads back as the danceability. */
  lemma DecimalRoundTrip(n: int)
    ensures ParseDecimal(DecimalString(n)) == n
  {
    if n < 0 {
      NatDigitsValue(-n);
      assert ("-" + NatDigits(-n))[1..] == NatDigits(-n);
    } else {
      NatDigitsValue(n);
    }
  }

  /** A list every song of which passes getRange's test is kept whole. */
  lemma {:induction false} SelectedAll(songs: seq<Song>, low: int, high: int, maxYear: int)
    requires forall i :: 0 <= i < |songs| ==> InRange(songs[i], low, high, maxYear)
    ensures Selected(songs, low, high, maxYear) == songs
    decreases |songs|
  {
    if songs != [] {
      SelectedAll(songs[1..], low, high, maxYear);
      assert songs == [songs[0]] + songs[1..];
    }
  }

  /** A list entirely on the chart by `maxYear` is kept whole. */
  lemma {:induction false} NotAfterAll(songs: seq<Song>, maxYear: int)
    requires forall i :: 0 <= i < |songs| ==> songs[i].year <= maxYear
    ensures NotAfter(songs, maxYear) == songs
    decreases |songs|
  {
    if songs != [] {
      NotAfterAll(songs[1..], maxYear);
      assert songs == [songs[0]] + songs[1..];
    }
  }

  /** Sorting a list whose keys are all equal changes nothing. */
  lemma {:induction false} SortEqualKeys(s: seq<Song>, k: SortKey, v: int)
    requires forall i :: 0 <= i < |s| ==> KeyOf(k, s[i]) == v
    ensures SortByKey(s, k) == s
    decreases |s|
  {
    if s != [] {
      SortEqualKeys(s[1..], k, v);
      assert s == [s[0]] + s[1..];
    }
  }

  /** An element whose key exceeds every other goes last. */
  lemma {:induction false} InsertByKeyLast(x: Song, t: seq<Song>, k: SortKey)
    requires forall i :: 0 <= i < |t| ==> KeyOf(k, t[i]) < KeyOf(k, x)
    ensures InsertByKey(x, t, k) == t + [x]
    decreases |t|
  {
    if t != [] {
      InsertByKeyLast(x, t[1..], k);
      assert t == [t[0]] + t[1..];
      assert t + [x] == [t[0]] + (t[1..] + [x]);
    }
  }

  /** Sorting a list whose keys strictly decrease reverses it. */
  lemma {:induction false} SortDecreasingKeys(s: seq<Song>, k: SortKey)
    requires forall i, j :: 0 <= i < j < |s| ==> KeyOf(k, s[j]) < KeyOf(k, s[i])
    ensures SortByKey(s, k) == Reverse(s)
    decreases |s|
  {
    if s != [] {
      var t := s[1..];
      var rt := Reverse(t);
      assert SortByKey(t, k) == rt by {
        assert forall i, j :: 0 <= i < j < |t| ==> KeyOf(k, t[j]) < KeyOf(k, t[i]) by {
          assert forall i :: 0 <= i < |t| ==> t[i] == s[i + 1];
        }
        SortDecreasingKeys(t, k);
      }
      assert InsertByKey(s[0], rt, k) == rt + [s[0]] by {
        forall i | 0 <= i < |rt| ensures KeyOf(k, rt[i]) < KeyOf(k, s[0]) {
          assert rt[i] == s[|t| - i];
        }
        InsertByKeyLast(s[0], rt, k);
      }
      assert SortByKey(s, k) == InsertByKey(s[0], SortByKey(t, k), k);
      ReverseCons(s);
    }
  }

  // ---------------------------------------------------------------------
  // The developer tests' scenarios; the iterator hands the songs out in
  // the order they were inserted
  // ---------------------------------------------------------------------

  /** The test songs differ in title, artist, year, BPM and danceability. */
  function Sample(title: string, artist: string, year: int, bpm: int, danceability: int): Song {
    Song(title, artist, "genre 1", year, bpm, 333, danceability, 203, 283)
  }

  /** testRange: of BPMs 202, 205 and 190, the range 200..206 keeps the
      first two, slower first. */
  lemma TestRange()
    ensures
      var songs := [Sample("Song 1", "Artist 1", 2010, 202, 200),
                    Sample("Song 2", "Artist 2", 2010, 205, 200),
                    Sample("Song 3", "Artist 3", 2010, 190, 200)];
      GetRange(NewBackend(), songs, 200, 206).1 == ["Song 1", "Song 2"]
  {
  }

  /** testRangeCase2: a year bound set before getRange excludes the 2011
      song, and the rest come back in BPM order. */
  lemma TestRangeCase2()
    ensures
      var songs := [Sample("Song 1", "Artist 1", 2010, 185, 200),
                    Sample("Song 2", "Artist 2", 2010, 183, 200),
                    Sample("Song 3", "Artist 3", 2011, 185, 200)];
      var (b, early) := FilterOldSongs(NewBackend(), 2010);
      && early == []
      && GetRange(b, songs, 180, 186).1 == ["Song 2", "Song 1"]
  {
  }

  /** testFilterOldSongs: before any getRange the filter reports nothing. */
  lemma TestFilterOldSongs()
    ensures FilterOldSongs(NewBackend(), 2010).1 == []
  {
  }

  /** testFilterOldSongsCase2: after getRange saves all three songs (BPM
      193, 200, 200, ties in iteration order), the bound 2014 drops the
      2015 song. */
  lemma TestFilterOldSongsCase2()
    ensures
      var songs := [Sample("Song 1", "Artist 1", 2015, 200, 200),
                    Sample("Song 2", "Artist 2", 2010, 193, 200),
                    Sample("Song 3", "Artist 3", 2011, 200, 200)];
      var b := GetRange(NewBackend(), songs, 190, 206).0;
      FilterOldSongs(b, 2014).1 == ["Song 2", "Song 3"]
  {
    var s1 := Sample("Song 1", "Artist 1", 2015, 200, 200);
    var s2 := Sample("Song 2", "Artist 2", 2010, 193, 200);
    var s3 := Sample("Song 3", "Artist 3", 2011, 200, 200);
    SelectedAll([s1, s2, s3], 190, 206, DefaultMaxYear);
    SlowestFirst(s1, s2, s3);
    OnlyLaterDropped(s2, s1, s3, 2014);
  }

  /** The middle song's BPM is below the other two, which tie. */
  lemma SlowestFirst(s1: Song, s2: Song, s3: Song)
    requires s2.bpm < s1.bpm == s3.bpm
    ensures SortByKey([s1, s2, s3], ByBPM) == [s2, s1, s3]
  {
    assert SortByKey([s2, s3], ByBPM) == [s2, s3] by {
      SortTwo(s2, s3, ByBPM);
    }
    assert SortByKey([s1, s2, s3], ByBPM) == InsertByKey(s1, [s2, s3], ByBPM) by {
      assert [s1, s2, s3][1..] == [s2, s3];
    }
    InsertByKeyBetween(s2, s1, s3, ByBPM);
  }

  lemma InsertByKeyBetween(a: Song, x: Song, b: Song, k: SortKey)
    requires KeyOf(k, a) < KeyOf(k, x) <= KeyOf(k, b)
    ensures InsertByKey(x, [a, b], k) == [a, x, b]
  {
    assert [a, b][1..] == [b];
    assert InsertByKey(x, [b], k) == [x, b];
  }

  lemma SortTwo(a: Song, b: Song, k: SortKey)
    requires KeyOf(k, a) <= KeyOf(k, b)
    ensures SortByKey([a, b], k) == [a, b]
  {
    assert [a, b][1..] == [b];
    assert SortByKey([b], k) == [b];
  }

  /** Only the middle song is later than the bound. */
  lemma OnlyLaterDropped(s1: Song, s2: Song, s3: Song, maxYear: int)
    requires s1.year <= maxYear < s2.year && s3.year <= maxYear
    ensures NotAfter([s1, s2, s3], maxYear) == [s1, s3]
  {
    assert [s1, s2, s3][1..] == [s2, s3] && [s2, s3][1..] == [s3];
    assert NotAfter([s3], maxYear) == [s3];
  }

  /** testFiveMostDanceable: of six songs with danceability 200..205 the
      five most danceable are reported, least danceable first. */
  lemma TestFiveMostDanceable()
    ensures
      var songs := [Sample("Song 1", "Artist 1", 2010, 123, 200),
                    Sample("Song 2", "Artist 2", 2010, 123, 201),
                    Sample("Song 3", "Artist 3", 2010, 123, 202),
                    Sample("Song 4", "Artist 4", 2010, 123, 203),
                    Sample("Song 5", "Artist 5", 2010, 123, 204),
                    Sample("Song 6", "Artist 6", 2010, 123, 205)];
      var b := GetRange(NewBackend(), songs, 121, 131).0;
      var r := FiveMostDanceable(FilterOldSongs(b, 2010).0);
      && r.Ok? && |r.value| == 5
      && r.value[0] == "201: Song 2" && r.value[1] == "202: Song 3" && r.value[2] == "203: Song 4"
      && r.value[3] == "204: Song 5" && r.value[4] == "205: Song 6"
  {
    var songs := [Sample("Song 1", "Artist 1", 2010, 123, 200),
                  Sample("Song 2", "Artist 2", 2010, 123, 201),
                  Sample("Song 3", "Artist 3", 2010, 123, 202),
                  Sample("Song 4", "Artist 4", 2010, 123, 203),
                  Sample("Song 5", "Artist 5", 2010, 123, 204),
                  Sample("Song 6", "Artist 6", 2010, 123, 205)];
    FiveOfSix(songs);
    EntrySong2();
    EntrySong3();
    EntrySong4();
    EntrySong5();
    EntrySong6();
  }

  /** The report lines for the test songs. */
  lemma EntrySong2()
    ensures Entry(Sample("Song 2", "Artist 2", 2010, 123, 201)) == "201: Song 2"
  {
    assert NatDigits(201) == NatDigits(20) + [DigitChar(1)];
    assert NatDigits(20) == "20" && DigitChar(1) == '1';
  }

  lemma EntrySong3()
    ensures Entry(Sample("Song 3", "Artist 3", 2010, 123, 202)) == "202: Song 3"
  {
    assert NatDigits(202) == NatDigits(20) + [DigitChar(2)];
    assert NatDigits(20) == "20" && DigitChar(2) == '2';
  }

  lemma EntrySong4()
    ensures Entry(Sample("Song 4", "Artist 4", 2010, 123, 203)) == "203: Song 4"
  {
    assert NatDigits(203) == NatDigits(20) + [DigitChar(3)];
    assert NatDigits(20) == "20" && DigitChar(3) == '3';
  }

  lemma EntrySong5()
    ensures Entry(Sample("Song 5", "Artist 5", 2010, 123, 204)) == "204: Song 5"
  {
    assert NatDigits(204) == NatDigits(20) + [DigitChar(4)];
    assert NatDigits(20) == "20" && DigitChar(4) == '4';
  }

  lemma EntrySong6()
    ensures Entry(Sample("Song 6", "Artist 6", 2010, 123, 205)) == "205: Song 6"
  {
    assert NatDigits(205) == NatDigits(20) + [DigitChar(5)];
    assert NatDigits(20) == "20" && DigitChar(5) == '5';
  }

  /** Six songs with one BPM and year and danceability rising from 200:
      the report is the last five in order. */
  lemma FiveOfSix(songs: seq<Song>)
    requires |songs| == 6
    requires forall i :: 0 <= i < 6 ==>
      songs[i].year == 2010 && songs[i].bpm == 123 && songs[i].danceability == 200 + i
    ensures
      var b := GetRange(NewBackend(), songs, 121, 131).0;
      var r := FiveMostDanceable(FilterOldSongs(b, 2010).0);
      && r.Ok? && |r.value| == 5
      && forall i :: 0 <= i < 5 ==> r.value[i] == Entry(songs[i + 1])
  {
    var b := GetRange(NewBackend(), songs, 121, 131).0;
    GetRangeSameBPM(NewBackend(), songs, 121, 131, 123);
    var b' := FilterOldSongs(b, 2010).0;
    assert b' == BackendState(songs, 2010, true);
    TopOfSix(songs);
  }

  /** When every iterated song passes and all share one BPM, getRange saves
      them in iteration order. */
  lemma GetRangeSameBPM(b: BackendState, songs: seq<Song>, low: int, high: int, bpm: int)
    requires forall i :: 0 <= i < |songs| ==> InRange(songs[i], low, high, b.maxYearFilter) && songs[i].bpm == bpm
    ensures GetRange(b, songs, low, high).0 == BackendState(songs, b.maxYearFilter, true)
  {
    SelectedAll(songs, low, high, b.maxYearFilter);
    SortEqualKeys(songs, ByBPM, bpm);
  }

  lemma TopOfSix(songs: seq<Song>)
    requires |songs| == 6
    requires forall i :: 0 <= i < 6 ==> songs[i].year == 2010 && songs[i].danceability == 200 + i
    ensures TopDanceable(BackendState(songs, 2010, true)) == songs[1..]
  {
    NotAfterAll(songs, 2010);
    SortDecreasingKeys(songs, ByDanceabilityReversed);
    ReverseCut(songs, 5);
  }

  /** The first `m` of a reversed list, reversed again, are its last `m`. */
  lemma ReverseCut(s: seq<Song>, m: nat)
    requires m <= |s|
    ensures Reverse(Reverse(s)[..m]) == s[|s| - m..]
  {
    var rs := Reverse(s);
    var c := rs[..m];
    var r := Reverse(c);
    var want := s[|s| - m..];
    assert |c| == m && |r| == m;
    forall i | 0 <= i < m ensures r[i] == want[i] {
      var j := m - 1 - i;
      assert r[i] == c[j];
      assert c[j] == rs[j];
    }
    assert |r| == |want|;
  }
}
