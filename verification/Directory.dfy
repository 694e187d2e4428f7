/** Directory decoding: one left-to-right pass over 32-byte entries, and what long names mean in it. */
module Directory {
  import opened Prelude

  const ENTRY := 32
  const LFN_BUFFER_LENGTH := 257
  const FILE_ATTRIBUTE_DIRECTORY := 0x10
  const FILE_ATTRIBUTE_ARCHIVE := 0x20
  const FILE_ATTRIBUTE_LFN := 0xF
  const LONGEST_NAME := 247
  const SPACE := 0x20
  const DOT := 0x2E

  datatype InodeInfo = InodeInfo(cluster: int, filename: seq<int>, size: int, isDirectory: bool)

  /** What ReadDir carries from entry to entry. */
  datatype State = State(reading: bool, buffer: seq<int>, list: seq<InodeInfo>)

  const INITIAL := State(false, Zeros(LFN_BUFFER_LENGTH), [])

  function Zeros(n: nat): (s: seq<int>)
    ensures |s| == n
  {
    seq(n, i => 0)
  }

  // ----- the fields of an entry -----

  function Little16(e: seq<int>, at: nat): int
    requires at + 2 <= |e|
  {
    e[at] + 0x100 * e[at + 1]
  }

  function Little32(e: seq<int>, at: nat): int
    requires at + 4 <= |e|
  {
    Little16(e, at) + 0x1_0000 * Little16(e, at + 2)
  }

  function ClusterNumber(e: seq<int>): int
    requires |e| == ENTRY
  {
    0x1_0000 * Little16(e, 20) + Little16(e, 26)
  }

  /** The shift happens in a 32-bit int, which the conversion to 64 bits then sign-extends. */
  function FirstCluster(e: seq<int>): int
    requires |e| == ENTRY
  {
    if ClusterNumber(e) < 0x8000_0000 then ClusterNumber(e)
    else ClusterNumber(e) - 0x1_0000_0000 + 0x1_0000_0000_0000_0000
  }

  /** An entry written for a cluster and a size: the bytes of both numbers, the cluster's two halves apart. */
  predicate StoresFields(e: seq<int>, cluster: nat, size: nat) {
    && |e| == 32 && cluster < 0x1_0000_0000 && size < 0x1_0000_0000
    && e[26] == cluster % 0x100 && e[27] == cluster / 0x100 % 0x100
    && e[20] == cluster / 0x1_0000 % 0x100 && e[21] == cluster / 0x100_0000
    && e[28] == size % 0x100 && e[29] == size / 0x100 % 0x100
    && e[30] == size / 0x1_0000 % 0x100 && e[31] == size / 0x100_0000
  }

  /** Every size is read back, and every cluster below 2^31. */
  lemma FieldsComeBackIff(e: seq<int>, cluster: nat, size: nat)
    requires StoresFields(e, cluster, size)
    ensures FirstCluster(e) == cluster <==> cluster < 0x8000_0000
    ensures Little32(e, 28) == size
  {
    FourBytes(cluster);
    FourBytes(size);
  }

  lemma FourBytes(n: nat)
    ensures n == n % 0x100 + 0x100 * (n / 0x100 % 0x100) + 0x1_0000 * (n / 0x1_0000 % 0x100) + 0x100_0000 * (n / 0x100_0000)
  {
    var n1 := n / 0x100;
    var n2 := n1 / 0x100;
    assert n / 0x1_0000 == n2;
    assert n / 0x100_0000 == n2 / 0x100;
  }

  /** Where the k-th character of a long-name entry is stored: five, six and two, two bytes each. */
  function NameOffset(k: nat): nat {
    if k < 5 then 1 + 2 * k else if k < 11 then 14 + 2 * (k - 5) else 28 + 2 * (k - 11)
  }

  /** The thirteen characters, cut down to their low bytes. */
  function NamePart(e: seq<int>): (s: seq<int>)
    requires |e| == ENTRY
    ensures |s| == 13
  {
    seq(13, k requires 0 <= k < 13 => e[NameOffset(k)])
  }

  /** The five bits of the sequence number that count. */
  function LfnIndex(e: seq<int>): int
    requires |e| == ENTRY
  {
    e[0] % 32
  }

  function PartStart(e: seq<int>): int
    requires |e| == ENTRY
  {
    (LfnIndex(e) - 1) * 13
  }

  /** An entry whose decoding stays inside the name buffer. */
  predicate Safe(e: seq<int>) {
    |e| == ENTRY && (e[11] == FILE_ATTRIBUTE_LFN ==> 1 <= LfnIndex(e) <= 19)
  }

  predicate InBuffer(e: seq<int>, k: nat)
    requires |e| == ENTRY
  {
    0 <= PartStart(e) + k < LFN_BUFFER_LENGTH
  }

  /** Exactly the indices 1 to 19 keep all thirteen writes inside the buffer. */
  lemma SafeIffInBuffer(e: seq<int>)
    requires |e| == ENTRY && e[11] == FILE_ATTRIBUTE_LFN
    ensures Safe(e) <==> forall k :: 0 <= k < 13 ==> InBuffer(e, k)
  {
    assert InBuffer(e, 0) && InBuffer(e, 12) <==> Safe(e);
  }

  function NonSpaces(s: seq<int>): (r: seq<int>)
    ensures |r| <= |s|
  {
    if s == [] then []
    else NonSpaces(s[..|s| - 1]) + if s[|s| - 1] != SPACE then [s[|s| - 1]] else []
  }

  /** The 8.3 name: padding dropped, and a dot when there is an extension. */
  function ShortName(e: seq<int>): (s: seq<int>)
    requires |e| == ENTRY
    ensures |s| <= 12
  {
    NonSpaces(e[..8]) + (if e[8] != SPACE then [DOT] else []) + NonSpaces(e[8..11])
  }

  function Filled(name: seq<int>): (s: seq<int>)
    requires |name| <= LFN_BUFFER_LENGTH
    ensures |s| == LFN_BUFFER_LENGTH
  {
    name + Zeros(LFN_BUFFER_LENGTH - |name|)
  }

  /** Writing the next character of a name into a zeroed buffer. */
  lemma FillMore(name: seq<int>, c: int)
    requires |name| < LFN_BUFFER_LENGTH
    ensures Filled(name)[|name| := c] == Filled(name + [c])
  {}

  // ----- the decoding -----

  function Overwritten(buffer: seq<int>, at: nat, part: seq<int>): (s: seq<int>)
    requires at + |part| <= |buffer|
    ensures |s| == |buffer|
  {
    buffer[..at] + part + buffer[at + |part|..]
  }

  /** The buffer a long-name entry writes into: cleared only when no long name is being read. */
  function CleanBuffer(st: State): (s: seq<int>)
    requires |st.buffer| == LFN_BUFFER_LENGTH
    ensures |s| == LFN_BUFFER_LENGTH
  {
    if st.reading then st.buffer else Zeros(LFN_BUFFER_LENGTH)
  }

  function DecodeEntry(st: State, e: seq<int>): (r: State)
    requires Safe(e) && |st.buffer| == LFN_BUFFER_LENGTH
    ensures |r.buffer| == LFN_BUFFER_LENGTH
  {
    if e[11] == FILE_ATTRIBUTE_LFN then
      State(true, Overwritten(CleanBuffer(st), PartStart(e), NamePart(e)), st.list)
    else if e[11] == FILE_ATTRIBUTE_ARCHIVE || e[11] == FILE_ATTRIBUTE_DIRECTORY then
      var name := if st.reading then st.buffer else Filled(ShortName(e));
      State(false, st.buffer,
            st.list + [InodeInfo(FirstCluster(e), name, Little32(e, 28), e[11] == FILE_ATTRIBUTE_DIRECTORY)])
    else st
  }

  ghost predicate AllSafe(es: seq<seq<int>>) {
    forall i :: 0 <= i < |es| ==> Safe(es[i])
  }

  ghost function Decode(st: State, es: seq<seq<int>>): (r: State)
    requires AllSafe(es) && |st.buffer| == LFN_BUFFER_LENGTH
    ensures |r.buffer| == LFN_BUFFER_LENGTH
    decreases |es|
  {
    if es == [] then st else DecodeEntry(Decode(st, es[..|es| - 1]), es[|es| - 1])
  }

  lemma DecodeOne(st: State, e: seq<int>)
    requires Safe(e) && |st.buffer| == LFN_BUFFER_LENGTH
    ensures AllSafe([e]) && Decode(st, [e]) == DecodeEntry(st, e)
  {
    assert [e][..0] == [];
  }

  /** Decoding may stop and go on anywhere. */
  lemma {:induction false} DecodeSplit(st: State, a: seq<seq<int>>, b: seq<seq<int>>)
    requires AllSafe(a) && AllSafe(b) && |st.buffer| == LFN_BUFFER_LENGTH
    ensures AllSafe(a + b) && Decode(st, a + b) == Decode(Decode(st, a), b)
    decreases |b|
  {
    if b == [] {
      assert a + b == a;
    } else {
      DecodeSplit(st, a, b[..|b| - 1]);
      assert (a + b)[..|a + b| - 1] == a + b[..|b| - 1];
    }
  }

  /** Inodes once decoded stay as they are. */
  lemma {:induction false} DecodeAppends(st: State, es: seq<seq<int>>)
    requires AllSafe(es) && |st.buffer| == LFN_BUFFER_LENGTH
    ensures st.list <= Decode(st, es).list
    decreases |es|
  {
    if es != [] {
      DecodeAppends(st, es[..|es| - 1]);
    }
  }

  // ----- bytes and entries -----

  /** The entries of a stretch of directory bytes. */
  function Entries(bytes: seq<int>): (es: seq<seq<int>>)
    requires |bytes| % ENTRY == 0
    ensures |es| == |bytes| / ENTRY && forall i :: 0 <= i < |es| ==> |es[i]| == ENTRY
  {
    seq(|bytes| / ENTRY, i requires 0 <= i < |bytes| / ENTRY => bytes[ENTRY * i..ENTRY * i + ENTRY])
  }

  /** Sectors hold whole entries, so cutting the bytes into sectors cuts no entry. */
  lemma EntriesAcrossSectors(a: seq<int>, b: seq<int>)
    requires |a| % ENTRY == 0 && |b| % ENTRY == 0
    ensures |a + b| % ENTRY == 0 && Entries(a + b) == Entries(a) + Entries(b)
  {
    var n := |a| / ENTRY;
    forall i | 0 <= i < |Entries(a + b)| ensures Entries(a + b)[i] == (Entries(a) + Entries(b))[i] {
      if i < n {
        assert (a + b)[ENTRY * i..ENTRY * i + ENTRY] == a[ENTRY * i..ENTRY * i + ENTRY];
      } else {
        assert (a + b)[ENTRY * i..ENTRY * i + ENTRY] == b[ENTRY * (i - n)..ENTRY * (i - n) + ENTRY];
      }
    }
  }

  // ----- long names -----

  /** What a reader of a char array sees. */
  function CString(s: seq<int>): seq<int> {
    if s == [] || s[0] == 0 then [] else [s[0]] + CString(s[1..])
  }

  lemma {:induction false} CStringStops(s: seq<int>, n: nat)
    requires n < |s| && s[n] == 0 && forall i :: 0 <= i < n ==> s[i] != 0
    ensures CString(s) == s[..n]
    decreases n
  {
    if n > 0 {
      CStringStops(s[1..], n - 1);
      assert s[..n] == [s[0]] + s[1..][..n - 1];
    }
  }

  lemma {:induction false} CStringGoesOn(s: seq<int>, n: nat)
    requires n < |s| && forall i :: 0 <= i <= n ==> s[i] != 0
    ensures |CString(s)| > n
    decreases n
  {
    if n > 0 {
      CStringGoesOn(s[1..], n - 1);
    }
  }

  /** The characters of a name as long-name entries store it: a terminator, then 0xFFFF fill. */
  function StoredChar(name: seq<int>, p: nat): int {
    if p < |name| then name[p] else if p == |name| then 0 else 0xFF
  }

  function Parts(name: seq<int>): nat { (|name| + 12) / 13 }

  ghost predicate IsPart(e: seq<int>, name: seq<int>, index: nat) {
    && |e| == 32 && e[11] == 0xF && e[0] % 0x20 == index >= 1
    && (forall k :: 0 <= k < 5 ==> e[1 + 2 * k] == StoredChar(name, (index - 1) * 13 + k))
    && (forall k :: 0 <= k < 6 ==> e[14 + 2 * k] == StoredChar(name, (index - 1) * 13 + 5 + k))
    && (forall k :: 0 <= k < 2 ==> e[28 + 2 * k] == StoredChar(name, (index - 1) * 13 + 11 + k))
  }

  lemma PartIsNamePart(e: seq<int>, name: seq<int>, index: nat)
    requires IsPart(e, name, index)
    ensures |e| == ENTRY && e[11] == FILE_ATTRIBUTE_LFN && LfnIndex(e) == index
    ensures forall k :: 0 <= k < 13 ==> NamePart(e)[k] == StoredChar(name, (index - 1) * 13 + k)
  {
    forall k | 0 <= k < 13 ensures NamePart(e)[k] == StoredChar(name, (index - 1) * 13 + k) {
      if k < 5 {
        assert e[1 + 2 * k] == StoredChar(name, (index - 1) * 13 + k);
      } else if k < 11 {
        assert e[14 + 2 * (k - 5)] == StoredChar(name, (index - 1) * 13 + 5 + (k - 5));
      } else {
        assert e[28 + 2 * (k - 11)] == StoredChar(name, (index - 1) * 13 + 11 + (k - 11));
      }
    }
  }

  /** Section "FAT Long Directory Entries" of the FAT specification 1.03: last part first, the file's own entry after part one. */
  ghost predicate StoredUnder(es: seq<seq<int>>, name: seq<int>) {
    && |es| == Parts(name) + 1
    && (forall i :: 0 <= i < Parts(name) ==> IsPart(es[i], name, Parts(name) - i))
    && |es[Parts(name)]| == 32 && (es[Parts(name)][11] == 0x20 || es[Parts(name)][11] == 0x10)
  }

  ghost predicate IsLongName(name: seq<int>) {
    1 <= |name| <= LONGEST_NAME && forall i :: 0 <= i < |name| ==> 0 < name[i] < 0x80
  }

  /** `es` starts with the parts `m` down to 1 of a name. */
  ghost predicate StartsWithParts(es: seq<seq<int>>, name: seq<int>, m: nat) {
    m <= |es| && m <= 19 && forall i :: 0 <= i < m ==> IsPart(es[i], name, m - i)
  }

  lemma StoredIsSafe(es: seq<seq<int>>, name: seq<int>)
    requires StoredUnder(es, name) && IsLongName(name)
    ensures 1 <= Parts(name) <= 19 && |name| <= 13 * Parts(name) && AllSafe(es) && StartsWithParts(es, name, Parts(name))
  {
    forall i | 0 <= i < |es| ensures Safe(es[i]) {
      if i < Parts(name) {
        assert IsPart(es[i], name, Parts(name) - i);
      }
    }
  }

  /** After the first `n` of `m` entries, the parts m - n + 1 to m are in the buffer `base`. */
  ghost predicate PartsIn(st: State, name: seq<int>, m: nat, n: nat, base: seq<int>)
    requires |base| == LFN_BUFFER_LENGTH
  {
    var from, to := 13 * (m - n), 13 * m;
    && st.reading && |st.buffer| == LFN_BUFFER_LENGTH
    && 0 <= from && to < LFN_BUFFER_LENGTH
    && (forall p :: from <= p < to ==> st.buffer[p] == StoredChar(name, p))
    && (forall p :: to <= p < LFN_BUFFER_LENGTH ==> st.buffer[p] == base[p])
  }

  lemma DecodePart(st: State, e: seq<int>, name: seq<int>, m: nat, n: nat, base: seq<int>)
    requires |st.buffer| == |base| == LFN_BUFFER_LENGTH && n < m <= 19
    requires IsPart(e, name, m - n) && Safe(e)
    requires if n == 0 then base == CleanBuffer(st) else PartsIn(st, name, m, n, base)
    ensures PartsIn(DecodeEntry(st, e), name, m, n + 1, base) && DecodeEntry(st, e).list == st.list
  {
    hide IsPart, NamePart, StoredChar;
    PartIsNamePart(e, name, m - n);
    var at := PartStart(e);
    var r := DecodeEntry(st, e);
    assert forall p :: at <= p < at + 13 ==> r.buffer[p] == NamePart(e)[p - at];
  }

  lemma {:induction false} DecodeParts(st: State, es: seq<seq<int>>, name: seq<int>, m: nat, n: nat)
    requires |st.buffer| == LFN_BUFFER_LENGTH && StartsWithParts(es, name, m) && 1 <= n <= m
    ensures AllSafe(es[..n])
    ensures PartsIn(Decode(st, es[..n]), name, m, n, CleanBuffer(st)) && Decode(st, es[..n]).list == st.list
  {
    hide PartsIn, IsPart, DecodeEntry, CleanBuffer;
    PartsAreSafe(es, name, m, n);
    assert es[..n][..n - 1] == es[..n - 1];
    assert IsPart(es[n - 1], name, m - (n - 1));
    if n > 1 {
      DecodeParts(st, es, name, m, n - 1);
    }
    DecodePart(Decode(st, es[..n - 1]), es[n - 1], name, m, n - 1, CleanBuffer(st));
  }

  lemma PartsAreSafe(es: seq<seq<int>>, name: seq<int>, m: nat, n: nat)
    requires StartsWithParts(es, name, m) && n <= m
    ensures AllSafe(es[..n])
  {
    forall i | 0 <= i < n ensures Safe(es[i]) {
      assert IsPart(es[i], name, m - i);
    }
  }

  /** The name is cut off by its own terminator, or, when it fills its parts, by what was in the buffer. */
  predicate CutOff(st: State, name: seq<int>)
    requires |st.buffer| == LFN_BUFFER_LENGTH && |name| < LFN_BUFFER_LENGTH
  {
    |name| % 13 != 0 || CleanBuffer(st)[|name|] == 0
  }

  lemma BufferHoldsName(st: State, r: State, name: seq<int>)
    requires |st.buffer| == LFN_BUFFER_LENGTH
    requires IsLongName(name) && PartsIn(r, name, Parts(name), Parts(name), CleanBuffer(st))
    ensures CString(r.buffer) == name <==> CutOff(st, name)
  {
    assert r.buffer[|name|] == 0 <==> CutOff(st, name);
    if r.buffer[|name|] == 0 {
      CStringStops(r.buffer, |name|);
      assert r.buffer[..|name|] == name;
    } else {
      CStringGoesOn(r.buffer, |name|);
    }
  }

  /**
   A stored name decodes to one inode, with the cluster, up to 2^31, and the size that were stored. The name comes back
   as the same C string exactly when it is cut off: always, unless orphaned long-name entries just
   before it left characters behind a name that fills its parts.
   */
  lemma LongNameComesBackIff(st: State, es: seq<seq<int>>, name: seq<int>, cluster: nat, size: nat)
    requires |st.buffer| == LFN_BUFFER_LENGTH && IsLongName(name) && StoredUnder(es, name)
    requires StoresFields(es[Parts(name)], cluster, size)
    ensures AllSafe(es)
    ensures var r, file := Decode(st, es), es[Parts(name)];
      && !r.reading && |r.list| == |st.list| + 1 && st.list <= r.list
      && (CString(r.list[|st.list|].filename) == name <==> CutOff(st, name))
      && (r.list[|st.list|].cluster == cluster <==> cluster < 0x8000_0000) && r.list[|st.list|].size == size
      && (r.list[|st.list|].isDirectory <==> file[11] == 0x10)
  {
    hide FirstCluster, Little32, StoresFields;
    FieldsComeBackIff(es[Parts(name)], cluster, size);
    StoredIsSafe(es, name);
    var n := Parts(name);
    DecodeParts(st, es, name, n, n);
    BufferHoldsName(st, Decode(st, es[..n]), name);
    assert es[..|es| - 1] == es[..n];
  }

  /** Main result: wherever in a directory the entries stand, straddling sectors or not, the file is listed as it was stored. */
  lemma LongNameAnywhere(before: seq<seq<int>>, es: seq<seq<int>>, after: seq<seq<int>>, name: seq<int>, cluster: nat, size: nat)
    requires AllSafe(before) && AllSafe(after) && IsLongName(name) && StoredUnder(es, name)
    requires StoresFields(es[Parts(name)], cluster, size) && cluster < 0x1000_0000
    requires !Decode(INITIAL, before).reading
    ensures AllSafe(before + es + after)
    ensures var list, at := Decode(INITIAL, before + es + after).list, |Decode(INITIAL, before).list|;
      && at < |list| && CString(list[at].filename) == name && list[at].cluster == cluster && list[at].size == size
      && (list[at].isDirectory <==> es[Parts(name)][11] == 0x10)
  {
    hide StoresFields;
    var st := Decode(INITIAL, before);
    LongNameComesBackIff(st, es, name, cluster, size);
    DecodeSplit(INITIAL, before, es);
    DecodeSplit(INITIAL, before + es, after);
    DecodeAppends(Decode(INITIAL, before + es), after);
  }

  // ----- short names and other entries -----

  lemma {:induction false} NonSpacesAreThere(s: seq<int>)
    ensures forall x :: x in NonSpaces(s) ==> x in s && x != SPACE
  {
    if s != [] {
      NonSpacesAreThere(s[..|s| - 1]);
    }
  }

  /** Only blanks are dropped. */
  lemma {:induction false} NonSpacesKeep(s: seq<int>)
    ensures SPACE !in s ==> NonSpaces(s) == s
    ensures SPACE in s ==> |NonSpaces(s)| < |s|
  {
    if s != [] {
      NonSpacesKeep(s[..|s| - 1]);
      assert s == s[..|s| - 1] + [s[|s| - 1]];
    }
  }

  /** The bytes `lo` up to `hi` of an entry hold `s`, padded with blanks. */
  ghost predicate Padded(e: seq<int>, lo: nat, hi: nat, s: seq<int>) {
    lo + |s| <= hi <= |e| && forall i :: lo <= i < hi ==> e[i] == if i - lo < |s| then s[i - lo] else 0x20
  }

  lemma {:induction false} PaddingIsDropped(e: seq<int>, lo: nat, hi: nat, s: seq<int>)
    requires Padded(e, lo, hi, s)
    ensures NonSpaces(e[lo..hi]) == NonSpaces(s)
    decreases hi
  {
    if lo + |s| == hi {
      assert e[lo..hi] == s;
    } else {
      PaddingIsDropped(e, lo, hi - 1, s);
      assert e[lo..hi][..hi - lo - 1] == e[lo..hi - 1];
    }
  }

  /** A file's own entry in the 8.3 format: eight bytes of name and three of extension, padded with blanks. */
  ghost predicate StoresShortName(e: seq<int>, base: seq<int>, extension: seq<int>) {
    && |e| == 32 && (e[11] == 0x20 || e[11] == 0x10)
    && Padded(e, 0, 8, base) && Padded(e, 8, 11, extension)
    && (forall i :: 0 <= i < |base| ==> base[i] != 0) && (forall i :: 0 <= i < |extension| ==> extension[i] != 0)
  }

  /** How such a name is written out. */
  function Dotted(base: seq<int>, extension: seq<int>): seq<int> {
    if extension == [] then base else base + [0x2E] + extension
  }

  /** An 8.3 name reads back as its non-blank characters, with a dot before the extension. */
  lemma ShortNameReads(e: seq<int>)
    requires |e| == ENTRY && forall i :: 0 <= i < 11 ==> e[i] != 0
    ensures CString(Filled(ShortName(e))) == ShortName(e)
  {
    NonSpacesAreThere(e[..8]);
    NonSpacesAreThere(e[8..11]);
    var name := ShortName(e);
    forall i | 0 <= i < |name| ensures name[i] != 0 {
      assert name[i] in NonSpaces(e[..8]) || name[i] in NonSpaces(e[8..11]) || name[i] == DOT;
    }
    CStringStops(Filled(name), |name|);
    assert Filled(name)[..|name|] == name;
  }

  lemma ShortNameIsDottedIff(e: seq<int>, base: seq<int>, extension: seq<int>)
    requires StoresShortName(e, base, extension)
    ensures ShortName(e) == Dotted(base, extension) <==> 0x20 !in base && 0x20 !in extension
  {
    PaddingIsDropped(e, 0, 8, base);
    PaddingIsDropped(e, 8, 11, extension);
    assert e[..8] == e[0..8];
    NonSpacesKeep(base);
    NonSpacesKeep(extension);
    assert extension != [] ==> e[8] == extension[0];
    assert extension == [] ==> e[8] == SPACE;
  }

  /**
   A file without a long name is listed with the name, cluster and size that were stored, in every
   state between long names; the name exactly if it has no blanks inside.
   */
  lemma ShortNameComesBackIff(st: State, e: seq<int>, base: seq<int>, extension: seq<int>, cluster: nat, size: nat)
    requires |st.buffer| == LFN_BUFFER_LENGTH && !st.reading
    requires StoresShortName(e, base, extension) && StoresFields(e, cluster, size)
    ensures Safe(e)
    ensures var r := DecodeEntry(st, e);
      && !r.reading && |r.list| == |st.list| + 1 && st.list <= r.list
      && (CString(r.list[|st.list|].filename) == Dotted(base, extension) <==> 0x20 !in base && 0x20 !in extension)
      && (r.list[|st.list|].cluster == cluster <==> cluster < 0x8000_0000) && r.list[|st.list|].size == size
      && (r.list[|st.list|].isDirectory <==> e[11] == 0x10)
  {
    hide FirstCluster, Little32, StoresFields, ShortName, Dotted, CString;
    NoZeros(e, base, extension);
    ShortNameReads(e);
    ShortNameIsDottedIff(e, base, extension);
    FieldsComeBackIff(e, cluster, size);
  }

  lemma NoZeros(e: seq<int>, base: seq<int>, extension: seq<int>)
    requires StoresShortName(e, base, extension)
    ensures forall i :: 0 <= i < 11 ==> e[i] != 0
  {}

  /**
   Which entries are listed: by the attribute byte alone, so a deleted entry, whose first byte is
   0xE5, is listed like any other. Entries with other attributes change nothing at all.
   */
  lemma ListedIff(st: State, e: seq<int>)
    requires Safe(e) && |st.buffer| == LFN_BUFFER_LENGTH
    ensures |DecodeEntry(st, e).list| == |st.list| + (if e[11] == 0x20 || e[11] == 0x10 then 1 else 0)
    ensures e[11] != 0x20 && e[11] != 0x10 && e[11] != 0xF ==> DecodeEntry(st, e) == st
  {}

  // ----- several readers of directories, one name buffer -----

  /** While a process is blocked in a sector read, other directory reads may leave something in the buffer. */
  function Disturbed(st: State, meanwhile: Option<seq<int>>): State {
    match meanwhile
    case None => st
    case Some(b) => st.(buffer := b)
  }

  ghost predicate Sectors(sectors: seq<seq<seq<int>>>, meanwhile: seq<Option<seq<int>>>) {
    && |sectors| == |meanwhile|
    && (forall k :: 0 <= k < |sectors| ==> AllSafe(sectors[k]))
    && (forall k :: 0 <= k < |meanwhile| && meanwhile[k].Some? ==> |meanwhile[k].value| == LFN_BUFFER_LENGTH)
  }

  /** Reading a directory sector by sector, blocked before each sector. */
  ghost function SharedDecode(st: State, sectors: seq<seq<seq<int>>>, meanwhile: seq<Option<seq<int>>>): (r: State)
    requires Sectors(sectors, meanwhile) && |st.buffer| == LFN_BUFFER_LENGTH
    ensures |r.buffer| == LFN_BUFFER_LENGTH
    decreases |sectors|
  {
    if sectors == [] then st
    else
      var n := |sectors| - 1;
      Decode(Disturbed(SharedDecode(st, sectors[..n], meanwhile[..n]), meanwhile[n]), sectors[n])
  }

  lemma SharedStep(st: State, sectors: seq<seq<seq<int>>>, meanwhile: seq<Option<seq<int>>>, es: seq<seq<int>>, window: Option<seq<int>>)
    requires Sectors(sectors, meanwhile) && |st.buffer| == LFN_BUFFER_LENGTH && AllSafe(es)
    requires window.Some? ==> |window.value| == LFN_BUFFER_LENGTH
    ensures Sectors(sectors + [es], meanwhile + [window])
    ensures SharedDecode(st, sectors + [es], meanwhile + [window]) == Decode(Disturbed(SharedDecode(st, sectors, meanwhile), window), es)
  {
    var n := |sectors|;
    assert (sectors + [es])[..n] == sectors && (meanwhile + [window])[..n] == meanwhile;
  }

  ghost function Flat(sectors: seq<seq<seq<int>>>): seq<seq<int>>
    decreases |sectors|
  {
    if sectors == [] then [] else Flat(sectors[..|sectors| - 1]) + sectors[|sectors| - 1]
  }

  lemma NothingIsFlat()
    ensures Flat([]) == [] && Entries([]) == []
  {}

  lemma FlatMore(sectors: seq<seq<seq<int>>>, es: seq<seq<int>>)
    ensures Flat(sectors + [es]) == Flat(sectors) + es
  {
    assert (sectors + [es])[..|sectors|] == sectors;
  }

  /** The states cannot be told apart by what is listed from them. */
  ghost predicate Alike(s: State, t: State) {
    && s.reading == t.reading && s.list == t.list && |s.buffer| == |t.buffer| == LFN_BUFFER_LENGTH
    && (s.reading ==> s.buffer == t.buffer)
  }

  lemma {:induction false} AlikeDecode(s: State, t: State, es: seq<seq<int>>)
    requires Alike(s, t) && AllSafe(es)
    ensures Alike(Decode(s, es), Decode(t, es))
    decreases |es|
  {
    if es != [] {
      AlikeDecode(s, t, es[..|es| - 1]);
    }
  }

  /**
   A change of the buffer between two sectors shows in no listing, whatever entries follow, exactly
   when no long name is being read or the buffer is left as it was.
   */
  lemma HarmlessIff(st: State, b: seq<int>)
    requires |st.buffer| == |b| == LFN_BUFFER_LENGTH
    ensures (forall es :: AllSafe(es) ==> Decode(Disturbed(st, Some(b)), es).list == Decode(st, es).list)
      <==> !st.reading || b == st.buffer
  {
    hide Decode;
    var st' := Disturbed(st, Some(b));
    if !st.reading || b == st.buffer {
      forall es | AllSafe(es) ensures Decode(st', es).list == Decode(st, es).list {
        AlikeDecode(st', st, es);
      }
    } else {
      var e := Zeros(ENTRY)[11 := FILE_ATTRIBUTE_ARCHIVE];
      var es := [e];
      DecodeOne(st, e);
      DecodeOne(st', e);
      assert Decode(st', es).list[|st.list|].filename == b && Decode(st, es).list[|st.list|].filename == st.buffer;
    }
  }

  /** No other read changes the buffer while this one is in the middle of a long name. */
  ghost predicate Undisturbed(st: State, sectors: seq<seq<seq<int>>>, meanwhile: seq<Option<seq<int>>>)
    requires Sectors(sectors, meanwhile) && |st.buffer| == LFN_BUFFER_LENGTH
    decreases |sectors|
  {
    sectors == [] ||
    (var n := |sectors| - 1;
     var before := SharedDecode(st, sectors[..n], meanwhile[..n]);
     && Undisturbed(st, sectors[..n], meanwhile[..n])
     && (!before.reading || Disturbed(before, meanwhile[n]) == before))
  }

  /** An undisturbed read is one decode of all its entries, as if nobody else existed. */
  lemma {:induction false} UndisturbedIsDecode(st: State, sectors: seq<seq<seq<int>>>, meanwhile: seq<Option<seq<int>>>)
    requires Sectors(sectors, meanwhile) && |st.buffer| == LFN_BUFFER_LENGTH && Undisturbed(st, sectors, meanwhile)
    ensures AllSafe(Flat(sectors)) && Alike(SharedDecode(st, sectors, meanwhile), Decode(st, Flat(sectors)))
    decreases |sectors|
  {
    if sectors != [] {
      var n := |sectors| - 1;
      UndisturbedIsDecode(st, sectors[..n], meanwhile[..n]);
      var before := SharedDecode(st, sectors[..n], meanwhile[..n]);
      AlikeDecode(Disturbed(before, meanwhile[n]), Decode(st, Flat(sectors[..n])), sectors[n]);
      DecodeSplit(st, Flat(sectors[..n]), sectors[n]);
    }
  }

  /** What a long-name entry leaves in a buffer it has cleared: zeros but for its own part. */
  lemma ClearedElsewhere(other: State, e: seq<int>, m: nat)
    requires |other.buffer| == LFN_BUFFER_LENGTH && !other.reading && m < 19
    requires Safe(e) && e[11] == FILE_ATTRIBUTE_LFN && LfnIndex(e) != m + 1
    ensures DecodeEntry(other, e).buffer[13 * m] == 0
  {}

  /** The last `m` parts of a name, read into a buffer that is zero behind them. */
  lemma LastPartsComeBack(st: State, rest: seq<seq<int>>, name: seq<int>, m: nat)
    requires |st.buffer| == LFN_BUFFER_LENGTH && st.reading && IsLongName(name)
    requires StartsWithParts(rest, name, m) && |rest| == m + 1 && AllSafe(rest) && 1 <= m && 13 * m < |name|
    requires rest[m][11] == FILE_ATTRIBUTE_ARCHIVE || rest[m][11] == FILE_ATTRIBUTE_DIRECTORY
    requires st.buffer[13 * m] == 0
    ensures var r := Decode(st, rest);
      |r.list| == |st.list| + 1 && CString(r.list[|st.list|].filename) == name[..13 * m]
  {
    DecodeParts(st, rest, name, m, m);
    var read := Decode(st, rest[..m]);
    assert rest[..|rest| - 1] == rest[..m];
    CStringStops(read.buffer, 13 * m);
    assert read.buffer[..13 * m] == name[..13 * m];
  }

  /**
   Two readers: one is blocked after the first `n` parts of a name, and another meets the first
   entry of a long name, for which it clears the buffer. The name comes out cut down to the parts
   that were still to come.
   */
  lemma TwoReadersLoseParts(st: State, es: seq<seq<int>>, name: seq<int>, n: nat, other: State, e: seq<int>)
    requires |st.buffer| == |other.buffer| == LFN_BUFFER_LENGTH && IsLongName(name) && StoredUnder(es, name)
    requires 1 <= n < Parts(name) && !other.reading
    requires Safe(e) && e[11] == FILE_ATTRIBUTE_LFN && LfnIndex(e) != Parts(name) - n + 1
    ensures AllSafe(es[..n]) && AllSafe(es[n..])
    ensures var meanwhile := Some(DecodeEntry(other, e).buffer);
      var r := Decode(Disturbed(Decode(st, es[..n]), meanwhile), es[n..]);
      && |r.list| == |st.list| + 1
      && CString(r.list[|st.list|].filename) == name[..13 * (Parts(name) - n)]
      && 13 * (Parts(name) - n) < |name|
  {
    hide Decode, DecodeEntry, StoredUnder, PartsIn;
    StoredIsSafe(es, name);
    var m := Parts(name) - n;
    DecodeParts(st, es, name, Parts(name), n);
    StillReading(Decode(st, es[..n]), name, Parts(name), n, CleanBuffer(st));
    RestOfParts(es, name, n);
    ClearedElsewhere(other, e, m);
    LastPartsComeBack(Disturbed(Decode(st, es[..n]), Some(DecodeEntry(other, e).buffer)), es[n..], name, m);
  }

  lemma StillReading(st: State, name: seq<int>, m: nat, n: nat, base: seq<int>)
    requires |base| == LFN_BUFFER_LENGTH && PartsIn(st, name, m, n, base)
    ensures st.reading
  {}

  lemma RestOfParts(es: seq<seq<int>>, name: seq<int>, n: nat)
    requires StoredUnder(es, name) && IsLongName(name) && n < Parts(name)
    ensures StartsWithParts(es[n..], name, Parts(name) - n) && AllSafe(es[n..])
    ensures var rest, m := es[n..], Parts(name) - n;
      && |rest| == m + 1 && 1 <= m && (n > 0 ==> m < 19 && 13 * m < |name|)
      && (rest[m][11] == FILE_ATTRIBUTE_ARCHIVE || rest[m][11] == FILE_ATTRIBUTE_DIRECTORY)
  {
    StoredIsSafe(es, name);
    forall i | 0 <= i < Parts(name) - n ensures IsPart(es[n..][i], name, Parts(name) - n - i) {
      assert IsPart(es[n + i], name, Parts(name) - (n + i));
    }
  }
}
