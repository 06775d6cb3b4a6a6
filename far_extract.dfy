/** Naming and key-selection logic of FAR extraction
    (src/include/fst/extensions/far/extract.h). An archive is seen only
    through the keys its reader visits, in order; writing an FST is reduced
    to the path it is written to. */
module FarExtraction {
  import opened Util
  import opened Wrappers

  /** The naming options of an extraction: `generate_sources`, the source
      prefix and the source suffix. */
  datatype NameOptions = NameOptions(generateSources: int, prefix: string, suffix: string)

  /** `std::setw(width) << std::setfill(fill) << s` with the default right
      adjustment: fill characters in front of s until it is `width` long. */
  function PadLeft(s: string, width: int, fill: char): string
  {
    if width > |s| then seq(width - |s|, _ => fill) + s else s
  }

  /** The padded string is at least width long, ends in s, and is fill
      before it. */
  lemma PadLeftShape(s: string, width: int, fill: char)
    ensures var r := PadLeft(s, width, fill);
            |r| == (if width > |s| then width else |s|) && r[|r| - |s|..] == s &&
            forall k :: 0 <= k < |r| - |s| ==> r[k] == fill
  {
  }

  /** The file name part of an extracted FST: the zero-padded counter when
      sources are generated, otherwise the key with a ".n" suffix for the
      n-th immediate repetition of the key. */
  function PathBody(opts: NameOptions, i: int, key: string, nrep: int): string
  {
    if opts.generateSources != 0 then PadLeft(IntToDecimal(i), opts.generateSources, '0')
    else key + (if nrep > 0 then "." + IntToDecimal(nrep) else "")
  }

  function FarPath(opts: NameOptions, i: int, key: string, nrep: int): string
  {
    opts.prefix + PathBody(opts, i, key, nrep) + opts.suffix
  }

  /** `FarWriteFst`: updates the repetition counter and the remembered key,
      and builds the output path by successive insertions. */
  method FarWriteFst(key: string, okey: string, nrep: int, opts: NameOptions, i: int)
    returns (okey': string, nrep': int, path: string)
    ensures nrep' == (if key == okey then nrep + 1 else 0)
    ensures okey' == key
    ensures path == FarPath(opts, i, key, nrep')
  {
    if key == okey {
      nrep' := nrep + 1;
    } else {
      nrep' := 0;
    }
    okey' := key;
    path := opts.prefix;
    if opts.generateSources != 0 {
      path := path + PadLeft(IntToDecimal(i), opts.generateSources, '0');
    } else {
      path := path + key;
      if nrep' > 0 {
        path := path + "." + IntToDecimal(nrep');
      }
    }
    path := path + opts.suffix;
  }

  // ---------------------------------------------------------------------
  // Distinctness of the generated names

  lemma {:induction false} DigitsValueZeros(n: nat)
    ensures AllDigits(seq(n, _ => '0')) && DigitsValue(seq(n, _ => '0')) == 0
  {
    if n > 0 {
      assert seq(n, _ => '0')[..n - 1] == seq(n - 1, _ => '0');
      DigitsValueZeros(n - 1);
    }
  }

  /** Leading zeros do not change the value of a digit string. */
  lemma {:induction false} DigitsValueLeadingZeros(z: nat, s: string)
    requires AllDigits(s)
    ensures AllDigits(seq(z, _ => '0') + s)
    ensures DigitsValue(seq(z, _ => '0') + s) == DigitsValue(s)
  {
    var t := seq(z, _ => '0') + s;
    if s == [] {
      assert t == seq(z, _ => '0');
      DigitsValueZeros(z);
    } else {
      assert t[..|t| - 1] == seq(z, _ => '0') + s[..|s| - 1];
      DigitsValueLeadingZeros(z, s[..|s| - 1]);
    }
  }

  lemma NatToDecimalInjective(m: nat, n: nat)
    requires NatToDecimal(m) == NatToDecimal(n)
    ensures m == n
  {
    NatToDecimalValue(m);
    NatToDecimalValue(n);
  }

  /** With generated sources, a non-negative counter renders as a string of
      at least `generate_sources` digits whose value is the counter. */
  lemma GeneratedBodyValue(opts: NameOptions, i: nat, key: string, nrep: int)
    requires opts.generateSources != 0
    ensures AllDigits(PathBody(opts, i, key, nrep))
    ensures DigitsValue(PathBody(opts, i, key, nrep)) == i
    ensures |PathBody(opts, i, key, nrep)| >= opts.generateSources
  {
    var d := NatToDecimal(i);
    assert IntToDecimal(i) == d;
    var z := if opts.generateSources > |d| then opts.generateSources - |d| else 0;
    assert PathBody(opts, i, key, nrep) == seq(z, _ => '0') + d;
    DigitsValueLeadingZeros(z, d);
    NatToDecimalValue(i);
  }

  lemma SameFrame(opts: NameOptions, b1: string, b2: string)
    requires opts.prefix + b1 + opts.suffix == opts.prefix + b2 + opts.suffix
    ensures b1 == b2
  {
    var p, q := opts.prefix + b1 + opts.suffix, opts.prefix + b2 + opts.suffix;
    assert |b1| == |b2|;
    assert b1 == p[|opts.prefix|..|opts.prefix| + |b1|];
    assert b2 == q[|opts.prefix|..|opts.prefix| + |b2|];
  }

  /** With generated sources, distinct non-negative counters give distinct
      paths. */
  lemma GeneratedPathsDistinct(opts: NameOptions, i1: nat, i2: nat, k1: string, k2: string, n1: int, n2: int)
    requires opts.generateSources != 0 && i1 != i2
    ensures FarPath(opts, i1, k1, n1) != FarPath(opts, i2, k2, n2)
  {
    if FarPath(opts, i1, k1, n1) == FarPath(opts, i2, k2, n2) {
      SameFrame(opts, PathBody(opts, i1, k1, n1), PathBody(opts, i2, k2, n2));
      GeneratedBodyValue(opts, i1, k1, n1);
      GeneratedBodyValue(opts, i2, k2, n2);
    }
  }

  /** Without generated sources, the repetitions of one key get distinct
      paths: the key itself, then key.1, key.2, ... */
  lemma RepeatedPathsDistinct(opts: NameOptions, i1: int, i2: int, key: string, n1: nat, n2: nat)
    requires opts.generateSources == 0 && n1 != n2
    ensures FarPath(opts, i1, key, n1) != FarPath(opts, i2, key, n2)
  {
    if FarPath(opts, i1, key, n1) == FarPath(opts, i2, key, n2) {
      var b1, b2 := PathBody(opts, i1, key, n1), PathBody(opts, i2, key, n2);
      SameFrame(opts, b1, b2);
      if n1 > 0 && n2 > 0 {
        assert IntToDecimal(n1) == b1[|key| + 1..];
        assert IntToDecimal(n2) == b2[|key| + 1..];
        NatToDecimalInjective(n1, n2);
      }
    }
  }

  // ---------------------------------------------------------------------
  // Repetition counting over a run of extractions

  /** How many keys immediately before position j equal the key at j; the
      remembered key starts out empty, so an empty first key counts as a
      repetition. */
  function RepeatCount(keys: seq<string>, j: nat): nat
    requires j < |keys|
  {
    if j == 0 then (if keys[0] == "" then 1 else 0)
    else if keys[j] == keys[j - 1] then RepeatCount(keys, j - 1) + 1
    else 0
  }

  lemma {:induction false} RepeatCountPrefix(keys: seq<string>, x: string, j: nat)
    requires j < |keys|
    ensures RepeatCount(keys + [x], j) == RepeatCount(keys, j)
  {
    if j > 0 {
      RepeatCountPrefix(keys, x, j - 1);
    }
  }

  /** What has been extracted so far: the keys handed to `FarWriteFst`, the
      counter and the repetition number it used for each, and the paths
      written. */
  datatype Written = Written(keys: seq<string>, indices: seq<int>, nreps: seq<int>, paths: seq<string>)

  function Empty(): Written { Written([], [], [], []) }

  /** Every path was named by the rule from its key, counter and repetition
      number. */
  predicate Named(w: Written, opts: NameOptions)
  {
    |w.indices| == |w.keys| && |w.nreps| == |w.keys| && |w.paths| == |w.keys| &&
    NamedUpTo(w, opts, |w.keys|)
  }

  /** The first n paths were named by the rule. */
  predicate NamedUpTo(w: Written, opts: NameOptions, n: nat)
    requires n <= |w.indices| && n <= |w.keys| && n <= |w.nreps| && n <= |w.paths|
    decreases n, 1
  {
    n == 0 || NamedThrough(w, opts, n)
  }

  /** The n-th path, and all before it, were named by the rule. */
  predicate NamedThrough(w: Written, opts: NameOptions, n: nat)
    requires 0 < n <= |w.indices| && n <= |w.keys| && n <= |w.nreps| && n <= |w.paths|
    decreases n, 0
  {
    NamedUpTo(w, opts, n - 1) &&
    w.paths[n - 1] == FarPath(opts, w.indices[n - 1], w.keys[n - 1], w.nreps[n - 1])
  }

  lemma {:induction false} NamedUpToAgree(w: Written, w': Written, opts: NameOptions, n: nat)
    requires n <= |w.indices| && n <= |w.keys| && n <= |w.nreps| && n <= |w.paths|
    requires n <= |w'.indices| && n <= |w'.keys| && n <= |w'.nreps| && n <= |w'.paths|
    requires w.indices[..n] == w'.indices[..n] && w.keys[..n] == w'.keys[..n]
    requires w.nreps[..n] == w'.nreps[..n] && w.paths[..n] == w'.paths[..n]
    requires NamedUpTo(w, opts, n)
    ensures NamedUpTo(w', opts, n)
  {
    if n > 0 {
      assert NamedThrough(w, opts, n);
      assert w.indices[..n][n - 1] == w.indices[n - 1] && w'.indices[..n][n - 1] == w'.indices[n - 1];
      assert w.keys[..n][n - 1] == w.keys[n - 1] && w'.keys[..n][n - 1] == w'.keys[n - 1];
      assert w.nreps[..n][n - 1] == w.nreps[n - 1] && w'.nreps[..n][n - 1] == w'.nreps[n - 1];
      assert w.paths[..n][n - 1] == w.paths[n - 1] && w'.paths[..n][n - 1] == w'.paths[n - 1];
      assert w.indices[..n - 1] == w.indices[..n][..n - 1];
      assert w'.indices[..n - 1] == w'.indices[..n][..n - 1];
      assert w.keys[..n - 1] == w.keys[..n][..n - 1];
      assert w'.keys[..n - 1] == w'.keys[..n][..n - 1];
      assert w.nreps[..n - 1] == w.nreps[..n][..n - 1];
      assert w'.nreps[..n - 1] == w'.nreps[..n][..n - 1];
      assert w.paths[..n - 1] == w.paths[..n][..n - 1];
      assert w'.paths[..n - 1] == w'.paths[..n][..n - 1];
      NamedUpToAgree(w, w', opts, n - 1);
      assert NamedThrough(w', opts, n);
    }
  }

  /** Recording one more path named by the rule keeps every path named. */
  lemma NamedExtend(w: Written, opts: NameOptions, key: string, i: int, nrep: int, path: string)
    requires Named(w, opts) && path == FarPath(opts, i, key, nrep)
    ensures Named(Written(w.keys + [key], w.indices + [i], w.nreps + [nrep], w.paths + [path]), opts)
  {
    var w' := Written(w.keys + [key], w.indices + [i], w.nreps + [nrep], w.paths + [path]);
    var n := |w.keys|;
    assert w'.indices[..n] == w.indices[..n];
    assert w'.keys[..n] == w.keys[..n];
    assert w'.nreps[..n] == w.nreps[..n];
    assert w'.paths[..n] == w.paths[..n];
    NamedUpToAgree(w, w', opts, n);
  }

  lemma {:induction false} NamedUpToAt(w: Written, opts: NameOptions, n: nat, j: nat)
    requires n <= |w.indices| && n <= |w.keys| && n <= |w.nreps| && n <= |w.paths|
    requires NamedUpTo(w, opts, n) && j < n
    ensures w.paths[j] == FarPath(opts, w.indices[j], w.keys[j], w.nreps[j])
  {
    assert NamedThrough(w, opts, n);
    if j < n - 1 {
      NamedUpToAt(w, opts, n - 1, j);
    }
  }

  /** Every recorded path is the one the rule gives its key, counter and
      repetition number. */
  lemma NamedPaths(w: Written, opts: NameOptions)
    requires Named(w, opts)
    ensures forall j :: 0 <= j < |w.paths| ==>
              w.paths[j] == FarPath(opts, w.indices[j], w.keys[j], w.nreps[j])
  {
    forall j | 0 <= j < |w.paths|
      ensures w.paths[j] == FarPath(opts, w.indices[j], w.keys[j], w.nreps[j])
    {
      NamedUpToAt(w, opts, |w.keys|, j);
    }
  }

  /** The repetition numbers, the remembered key and the counter agree with
      the keys extracted so far. */
  predicate Counted(w: Written, okey: string, nrep: int)
  {
    RepeatsCounted(w) &&
    (w.keys == [] ==> okey == "" && nrep == 0) &&
    (w.keys != [] ==> okey == w.keys[|w.keys| - 1] && nrep == w.nreps[|w.keys| - 1])
  }

  /** Each repetition number counts the identical keys just before it. */
  predicate RepeatsCounted(w: Written)
  {
    |w.nreps| == |w.keys| && CountedUpTo(w.keys, w.nreps, |w.keys|)
  }

  predicate CountedUpTo(keys: seq<string>, nreps: seq<int>, n: nat)
    requires n <= |keys| && n <= |nreps|
  {
    n == 0 || (CountedUpTo(keys, nreps, n - 1) && nreps[n - 1] == RepeatCount(keys, n - 1))
  }

  lemma {:induction false} CountedUpToExtend(keys: seq<string>, nreps: seq<int>, x: string, r: int, n: nat)
    requires n <= |keys| == |nreps| && CountedUpTo(keys, nreps, n)
    ensures CountedUpTo(keys + [x], nreps + [r], n)
  {
    if n > 0 {
      CountedUpToExtend(keys, nreps, x, r, n - 1);
      RepeatCountPrefix(keys, x, n - 1);
      assert (nreps + [r])[n - 1] == nreps[n - 1];
    }
  }

  lemma {:induction false} CountedUpToAt(keys: seq<string>, nreps: seq<int>, n: nat, j: nat)
    requires n <= |keys| && n <= |nreps| && CountedUpTo(keys, nreps, n) && j < n
    ensures nreps[j] == RepeatCount(keys, j)
  {
    if j < n - 1 {
      CountedUpToAt(keys, nreps, n - 1, j);
    }
  }

  /** Every repetition number is the count of identical keys just before. */
  lemma CountedReps(w: Written)
    requires RepeatsCounted(w)
    ensures forall j :: 0 <= j < |w.keys| ==> w.nreps[j] == RepeatCount(w.keys, j)
  {
    forall j | 0 <= j < |w.keys|
      ensures w.nreps[j] == RepeatCount(w.keys, j)
    {
      CountedUpToAt(w.keys, w.nreps, |w.keys|, j);
    }
  }

  predicate Consistent(w: Written, okey: string, nrep: int, opts: NameOptions)
  {
    Named(w, opts) && Counted(w, okey, nrep)
  }

  predicate Increasing(indices: seq<int>)
  {
    forall j, j' :: 0 <= j < j' < |indices| ==> indices[j] < indices[j']
  }

  /** One extraction: calls `FarWriteFst` and records it. */
  method WriteOne(w: Written, okey: string, nrep: int, opts: NameOptions, key: string, i: int)
    returns (w': Written, okey': string, nrep': int)
    requires Consistent(w, okey, nrep, opts)
    ensures Consistent(w', okey', nrep', opts)
    ensures w'.keys == w.keys + [key] && w'.indices == w.indices + [i]
  {
    var path;
    okey', nrep', path := FarWriteFst(key, okey, nrep, opts, i);
    w' := Written(w.keys + [key], w.indices + [i], w.nreps + [nrep'], w.paths + [path]);
    CountedStep(w, okey, nrep, key);
    NamedExtend(w, opts, key, i, nrep', path);
  }

  lemma CountedStep(w: Written, okey: string, nrep: int, key: string)
    requires Counted(w, okey, nrep)
    ensures var nrep' := if key == okey then nrep + 1 else 0;
            Counted(Written(w.keys + [key], w.indices, w.nreps + [nrep'], w.paths), key, nrep')
  {
    var nrep' := if key == okey then nrep + 1 else 0;
    var n := |w.keys|;
    var keys', nreps' := w.keys + [key], w.nreps + [nrep'];
    CountedUpToExtend(w.keys, w.nreps, key, nrep', n);
    if n > 0 {
      CountedUpToAt(w.keys, w.nreps, n, n - 1);
      RepeatCountPrefix(w.keys, key, n - 1);
    }
    assert nreps'[n] == RepeatCount(keys', n);
  }

  // ---------------------------------------------------------------------
  // Key specifications

  /** A key specification is a single key, a range of keys, or illegal. */
  datatype KeySpec = Single(key: string) | Range(beginKey: string, endKey: string) | Illegal

  /** Classification of one key specification split at the range delimiter
      with empty pieces kept. */
  function Classify(pieces: seq<string>, key: string): (r: KeySpec)
  {
    if |pieces| == 1 then Single(key)
    else if |pieces| == 2 && pieces[0] != [] && pieces[1] != [] then Range(pieces[0], pieces[1])
    else Illegal
  }

  lemma {:induction false} RemoveNoDelims(s: string, delim: string)
    requires CountDelims(s, delim) == 0
    ensures RemoveDelims(s, delim) == s
  {
    if s != [] {
      RemoveNoDelims(s[1..], delim);
    }
  }

  /** A key without range delimiter is a single key; one delimiter with keys
      on both sides makes a range whose ends are those keys; anything else is
      illegal. */
  lemma ClassifySplit(key: string, delim: string)
    ensures var r := Classify(Split(key, delim), key);
            (r.Single? <==> CountDelims(key, delim) == 0) &&
            (r.Range? ==> CountDelims(key, delim) == 1 && r.beginKey != [] && r.endKey != [] &&
                          r.beginKey + r.endKey == RemoveDelims(key, delim)) &&
            (r.Illegal? <==> CountDelims(key, delim) > 1 ||
                             (CountDelims(key, delim) == 1 &&
                              (Split(key, delim)[0] == [] || Split(key, delim)[1] == [])))
  {
    var pieces := Split(key, delim);
    SplitCount(key, delim);
    SplitConcat(key, delim);
    if |pieces| == 2 {
      assert pieces[1..] == [pieces[1]];
      assert Concat([pieces[1]]) == pieces[1] + Concat([]);
    }
  }

  // ---------------------------------------------------------------------
  // The archive reader

  /** `std::string_view` ordering: lexicographic by character. */
  predicate LexLess(a: string, b: string)
  {
    if a == [] then b != []
    else if b == [] then false
    else if a[0] != b[0] then a[0] < b[0]
    else LexLess(a[1..], b[1..])
  }

  lemma {:induction false} LexLessTransitive(a: string, b: string, c: string)
    requires LexLess(a, b) && LexLess(b, c)
    ensures LexLess(a, c)
  {
    if a != [] && b != [] && c != [] && a[0] == b[0] && b[0] == c[0] {
      LexLessTransitive(a[1..], b[1..], c[1..]);
    }
  }

  lemma {:induction false} LexLessIrreflexive(a: string)
    ensures !LexLess(a, a)
  {
    if a != [] {
      LexLessIrreflexive(a[1..]);
    }
  }

  /** An archive's keys in increasing order. */
  predicate Sorted(archive: seq<string>)
  {
    forall j, j' :: 0 <= j < j' < |archive| ==> LexLess(archive[j], archive[j'])
  }

  /** `FarReader::Find`: the position of the key, if present. */
  function Find(archive: seq<string>, key: string): (r: Option<nat>)
    ensures r.Some? ==> r.value < |archive| && archive[r.value] == key &&
                        forall j :: 0 <= j < r.value ==> archive[j] != key
    ensures r.None? ==> key !in archive
  {
    if |archive| == 0 then None
    else if archive[0] == key then Some(0)
    else match Find(archive[1..], key)
         case None => None
         case Some(j) => Some(j + 1)
  }

  /** The counters a, a+1, ..., a+n-1. */
  function Counters(a: int, n: nat): (r: seq<int>)
    ensures |r| == n && forall k :: 0 <= k < n ==> r[k] == a + k
  {
    seq(n, k => a + k)
  }

  lemma CountersStep(a: seq<int>, b: seq<int>, i0: int, n: nat, i: int)
    requires b == a + Counters(i0, n) && i == i0 + n
    ensures b + [i] == a + Counters(i0, n + 1)
  {
    assert Counters(i0, n + 1) == Counters(i0, n) + [i];
  }

  /** Where a range scan from start stops: the first position whose key
      comes after endKey, or the end of the archive. */
  function RangeEnd(archive: seq<string>, start: nat, endKey: string): (r: nat)
    requires start <= |archive|
    ensures start <= r <= |archive|
    decreases |archive| - start
  {
    if start == |archive| || LexLess(endKey, archive[start]) then start
    else RangeEnd(archive, start + 1, endKey)
  }

  lemma SliceExtend<T>(s: seq<T>, a: nat, b: nat)
    requires a <= b < |s|
    ensures s[a..b + 1] == s[a..b] + [s[b]]
  {
  }

  lemma AppendAssoc<T>(a: seq<T>, b: seq<T>, c: seq<T>)
    ensures (a + b) + c == a + (b + c)
  {
  }

  /** Where a range scan from start stopped: every key before the stop is
      not after endKey, and the key at the stop, if any, is. */
  predicate RangeStops(archive: seq<string>, start: nat, stop: nat, endKey: string)
  {
    start <= stop <= |archive| &&
    (forall j :: start <= j < stop ==> !LexLess(endKey, archive[j])) &&
    (stop < |archive| ==> LexLess(endKey, archive[stop]))
  }

  /** w' is w followed by the keys at start..stop-1, counted from i0. */
  predicate RangeWritten(w: Written, w': Written, archive: seq<string>, start: nat, stop: nat, i0: int)
    requires start <= stop <= |archive|
  {
    w'.keys == w.keys + archive[start..stop] && w'.indices == w.indices + Counters(i0, stop - start)
  }

  /** The scan passes over keys that do not come after endKey and stops at
      the first that does. */
  lemma {:induction false} RangeEndStops(archive: seq<string>, start: nat, endKey: string)
    requires start <= |archive|
    ensures RangeStops(archive, start, RangeEnd(archive, start, endKey), endKey)
    decreases |archive| - start
  {
    if start < |archive| && !LexLess(endKey, archive[start]) {
      RangeEndStops(archive, start + 1, endKey);
    }
  }

  lemma RangeWrittenEmpty(w: Written, archive: seq<string>, start: nat, i0: int)
    requires start <= |archive|
    ensures RangeWritten(w, w, archive, start, start, i0)
  {
    assert archive[start..start] == [];
    assert w.indices + Counters(i0, 0) == w.indices;
  }

  lemma RangeWrittenStep(w: Written, w1: Written, w2: Written, archive: seq<string>,
                         start: nat, stop: nat, i0: int)
    requires start <= stop < |archive| && RangeWritten(w, w1, archive, start, stop, i0)
    requires w2.keys == w1.keys + [archive[stop]] && w2.indices == w1.indices + [i0 + (stop - start)]
    ensures RangeWritten(w, w2, archive, start, stop + 1, i0)
  {
    SliceExtend(archive, start, stop);
    AppendAssoc(w.keys, archive[start..stop], [archive[stop]]);
    CountersStep(w.indices, w1.indices, i0, stop - start, i0 + (stop - start));
  }

  /** The facts every extraction keeps about what it has written so far:
      counters increase, lie below the next counter, and name archive keys. */
  predicate Progress(w: Written, i: int, archive: seq<string>)
  {
    |w.indices| == |w.keys| &&
    Increasing(w.indices) && (forall j :: 0 <= j < |w.indices| ==> 0 <= w.indices[j] < i) &&
    forall j :: 0 <= j < |w.keys| ==> w.keys[j] in archive
  }

  lemma ProgressAfterRange(w: Written, w': Written, i0: int, archive: seq<string>, start: nat, stop: nat)
    requires i0 >= 0 && Progress(w, i0, archive) && start <= stop <= |archive|
    requires RangeWritten(w, w', archive, start, stop, i0)
    ensures Progress(w', i0 + (stop - start), archive)
  {
    forall j | |w.keys| <= j < |w'.keys|
      ensures w'.keys[j] in archive
    {
      assert w'.keys[j] == archive[start + (j - |w.keys|)];
    }
  }

  /** One step of the range loop: writes the key at stop with the next
      counter. */
  method ExtractNext(archive: seq<string>, start: nat, stop: nat, i0: int,
                     w: Written, w1: Written, okey: string, nrep: int, opts: NameOptions)
    returns (w2: Written, okey': string, nrep': int)
    requires start <= stop < |archive|
    requires Consistent(w1, okey, nrep, opts) && RangeWritten(w, w1, archive, start, stop, i0)
    ensures Consistent(w2, okey', nrep', opts) && RangeWritten(w, w2, archive, start, stop + 1, i0)
  {
    w2, okey', nrep' := WriteOne(w1, okey, nrep, opts, archive[stop], i0 + (stop - start));
    RangeWrittenStep(w, w1, w2, archive, start, stop, i0);
  }

  /** The inner loop of a range extraction: from the begin key on, extracts
      every key until the first one that comes after the end key. */
  method ExtractRange(archive: seq<string>, start: nat, endKey: string, i0: int,
                      w: Written, okey: string, nrep: int, opts: NameOptions)
    returns (stop: nat, i: int, w': Written, okey': string, nrep': int)
    requires start <= |archive|
    requires Consistent(w, okey, nrep, opts)
    ensures stop == RangeEnd(archive, start, endKey)
    ensures i == i0 + (stop - start)
    ensures Consistent(w', okey', nrep', opts)
    ensures RangeWritten(w, w', archive, start, stop, i0)
  {
    stop, i, w', okey', nrep' := start, i0, w, okey, nrep;
    RangeWrittenEmpty(w, archive, start, i0);
    while stop < |archive|
      invariant start <= stop <= |archive|
      invariant RangeEnd(archive, stop, endKey) == RangeEnd(archive, start, endKey)
      invariant i == i0 + (stop - start)
      invariant Consistent(w', okey', nrep', opts)
      invariant RangeWritten(w, w', archive, start, stop, i0)
    {
      var ikey := archive[stop];
      if LexLess(endKey, ikey) {
        break;
      }
      w', okey', nrep' := ExtractNext(archive, start, stop, i0, w, w', okey', nrep', opts);
      stop, i := stop + 1, i + 1;
    }
  }

  /** In a sorted archive a range extraction takes exactly the keys from the
      begin key up to and including the end key. */
  lemma RangeIsInterval(archive: seq<string>, start: nat, endKey: string)
    requires Sorted(archive) && start <= |archive|
    ensures forall j :: start <= j < |archive| ==>
              (j < RangeEnd(archive, start, endKey) <==> !LexLess(endKey, archive[j]))
  {
    var stop := RangeEnd(archive, start, endKey);
    RangeEndStops(archive, start, endKey);
    forall j | stop < j < |archive|
      ensures LexLess(endKey, archive[j])
    {
      LexLessTransitive(endKey, archive[stop], archive[j]);
    }
  }

  /** How an extraction ended: every requested FST was written, or it stopped
      at a key that was missing or at an illegal range specification. */
  datatype Outcome = Completed | MissingKey(key: string) | IllegalRange(spec: string)

  /** What one key specification writes: how it ends, the keys and the
      counters it writes, and the counter it leaves for the key list's own
      increment. */
  datatype SpecWrites = SpecWrites(outcome: Outcome, keys: seq<string>, counters: seq<int>, next: int)

  /** The writes of one key specification given counter i. A single key, when
      present, is written with i. A range writes the keys from the first
      occurrence of its begin key up to the first key after its end key,
      counted from i, and leaves the counter after the last of them. A
      missing key or an illegal specification writes nothing. */
  function SpecResult(archive: seq<string>, spec: string, rangeDelimiter: string, i: int): SpecWrites
  {
    match Classify(Split(spec, rangeDelimiter), spec)
    case Single(key) =>
      if key in archive then SpecWrites(Completed, [key], [i], i) else SpecWrites(MissingKey(key), [], [], i)
    case Range(beginKey, endKey) =>
      (match Find(archive, beginKey)
       case None => SpecWrites(MissingKey(beginKey), [], [], i)
       case Some(start) =>
         var stop := RangeEnd(archive, start, endKey);
         SpecWrites(Completed, archive[start..stop], Counters(i, stop - start), i + (stop - start)))
    case Illegal => SpecWrites(IllegalRange(spec), [], [], i)
  }

  /** A key specification writes archive keys with the consecutive counters
      i, i+1, ..., and leaves a counter between i and i plus what it wrote.
      It stops with an illegal range exactly when it is classified illegal,
      and at a missing key only when that key is not in the archive, having
      written nothing; a single key completes exactly when it is present. */
  lemma SpecResultShape(archive: seq<string>, spec: string, rangeDelimiter: string, i: int)
    ensures var r := SpecResult(archive, spec, rangeDelimiter, i);
            |r.keys| == |r.counters| && i <= r.next <= i + |r.keys| &&
            (forall j :: 0 <= j < |r.counters| ==> r.counters[j] == i + j) &&
            (forall j :: 0 <= j < |r.keys| ==> r.keys[j] in archive) &&
            (r.outcome == IllegalRange(spec) <==> Classify(Split(spec, rangeDelimiter), spec).Illegal?) &&
            (r.outcome.MissingKey? ==> r.outcome.key !in archive) &&
            (!r.outcome.Completed? ==> r.keys == [] && r.next == i) &&
            (Classify(Split(spec, rangeDelimiter), spec).Single? ==>
               (r.outcome.Completed? <==> spec in archive))
  {
    var r := SpecResult(archive, spec, rangeDelimiter, i);
    match Classify(Split(spec, rangeDelimiter), spec)
    case Single(key) =>
    case Range(beginKey, endKey) =>
      if Find(archive, beginKey).Some? {
        var start := Find(archive, beginKey).value;
        forall j | 0 <= j < |r.keys|
          ensures r.keys[j] in archive
        {
          assert r.keys[j] == archive[start + j];
        }
      }
    case Illegal =>
  }

  /** The writes of a whole key list. */
  datatype ListWrites = ListWrites(outcome: Outcome, keys: seq<string>, counters: seq<int>)

  /** The writes of the key specifications from the k-th on, the k-th
      getting counter i: the specifications in order, stopping at the first
      that does not complete; after each one the counter advances once more. */
  function ListResult(archive: seq<string>, specs: seq<string>, k: nat, rangeDelimiter: string, i: int): ListWrites
    requires k <= |specs|
    decreases |specs| - k, 1
  {
    if k == |specs| then ListWrites(Completed, [], []) else EntryResult(archive, specs, k, rangeDelimiter, i)
  }

  /** The writes of the k-th key specification, with counter i, and of
      those after it when it completes. */
  function EntryResult(archive: seq<string>, specs: seq<string>, k: nat, rangeDelimiter: string, i: int): ListWrites
    requires k < |specs|
    decreases |specs| - k, 0
  {
    var r := SpecResult(archive, specs[k], rangeDelimiter, i);
    if !r.outcome.Completed? then ListWrites(r.outcome, r.keys, r.counters)
    else
      var rest := ListResult(archive, specs, k + 1, rangeDelimiter, r.next + 1);
      ListWrites(rest.outcome, r.keys + rest.keys, r.counters + rest.counters)
  }

  lemma SpecResultPresentKey(archive: seq<string>, key: string, rangeDelimiter: string, i: int)
    requires CountDelims(key, rangeDelimiter) == 0 && key in archive
    ensures SpecResult(archive, key, rangeDelimiter, i) == SpecWrites(Completed, [key], [i], i)
  {
    ClassifySplit(key, rangeDelimiter);
  }

  lemma CountersCons(a: int, n: nat)
    ensures [a] + Counters(a + 1, n) == Counters(a, n + 1)
  {
  }

  /** Present single keys from the k-th on write exactly those keys, counted
      i, i+1, ...: a single key advances the counter once. */
  lemma {:induction false} SinglesCountedOnce(archive: seq<string>, specs: seq<string>, k: nat,
                                              rangeDelimiter: string, i: int)
    requires k <= |specs|
    requires forall j :: k <= j < |specs| ==> CountDelims(specs[j], rangeDelimiter) == 0 && specs[j] in archive
    ensures ListResult(archive, specs, k, rangeDelimiter, i) == ListWrites(Completed, specs[k..], Counters(i, |specs| - k))
    decreases |specs| - k
  {
    if k < |specs| {
      SpecResultPresentKey(archive, specs[k], rangeDelimiter, i);
      SinglesCountedOnce(archive, specs, k + 1, rangeDelimiter, i + 1);
      assert [specs[k]] + specs[k + 1..] == specs[k..];
      CountersCons(i, |specs| - k - 1);
    }
  }

  lemma SplitOneKey(c: string, delim: string)
    requires |c| == 1 && c[0] !in delim
    ensures Split(c, delim) == [c]
  {
    var rest := Split(c[1..], delim);
    assert c[1..] == [] && rest == [[]];
    assert rest[0] == [] && rest[1..] == [] && [c[0]] + rest[0] == c;
  }

  /** A range that writes m FSTs moves the next specification's counter by
      m + 1: "a-c,d" over the archive a, b, c, d counts a, b, c from 0 and d
      with 4. */
  lemma RangeThenSingle()
    ensures ListResult(["a", "b", "c", "d"], ["a-c", "d"], 0, "-", 0)
            == ListWrites(Completed, ["a", "b", "c", "d"], [0, 1, 2, 4])
  {
    var archive := ["a", "b", "c", "d"];
    var specs := ["a-c", "d"];
    ExampleRangeWrites(archive);
    ExampleSingleWrites(archive);
    assert ListResult(archive, specs, 1, "-", 4) == ListWrites(Completed, ["d"], [4]);
  }

  /** Two present single keys, "a,b" over the archive a, b, are counted 0
      and 1. */
  lemma TwoSingleKeys()
    ensures ListResult(["a", "b"], ["a", "b"], 0, "-", 0) == ListWrites(Completed, ["a", "b"], [0, 1])
  {
    var archive := ["a", "b"];
    var specs := ["a", "b"];
    SplitOneKey("a", "-");
    SplitOneKey("b", "-");
    SpecResultSingle(archive, "a", "-", 0);
    SpecResultSingle(archive, "b", "-", 1);
    assert ListResult(archive, specs, 1, "-", 1) == ListWrites(Completed, ["b"], [1]);
  }

  lemma ExampleSingleWrites(archive: seq<string>)
    requires archive == ["a", "b", "c", "d"]
    ensures SpecResult(archive, "d", "-", 4) == SpecWrites(Completed, ["d"], [4], 4)
  {
    SplitOneKey("d", "-");
    assert "d" in archive;
  }

  lemma ExampleRangeWrites(archive: seq<string>)
    requires archive == ["a", "b", "c", "d"]
    ensures SpecResult(archive, "a-c", "-", 0) == SpecWrites(Completed, ["a", "b", "c"], [0, 1, 2], 3)
  {
    ExampleRangeSplit();
    assert Find(archive, "a") == Some(0);
    ExampleRangeEnd(archive);
    assert archive[0..3] == ["a", "b", "c"];
    assert Counters(0, 3) == [0, 1, 2];
  }

  lemma ExampleRangeSplit()
    ensures Split("a-c", "-") == ["a", "c"]
  {
    SplitOneKey("c", "-");
    assert "-c"[1..] == "c" && "a-c"[1..] == "-c";
    assert Split("-c", "-") == [[]] + ["c"] == ["", "c"];
    assert ["", "c"][1..] == ["c"] && ['a'] + "" == "a";
    assert Split("a-c", "-") == [['a'] + ""] + ["c"];
  }

  lemma ExampleRangeEnd(archive: seq<string>)
    requires archive == ["a", "b", "c", "d"]
    ensures RangeEnd(archive, 0, "c") == 3
  {
    assert "c"[1..] == [] && "d"[1..] == [];
    assert LexLess("c", "d");
    assert RangeEnd(archive, 3, "c") == 3;
    assert !LexLess("c", "c") by { assert !LexLess([], []); }
    assert RangeEnd(archive, 2, "c") == 3;
    assert !LexLess("c", "b");
    assert RangeEnd(archive, 1, "c") == 3;
    assert !LexLess("c", "a");
  }

  /** What is still to be written, rest, completes the writes w made so far
      to those of all the list. */
  predicate ListAhead(all: ListWrites, w: Written, rest: ListWrites)
  {
    all.outcome == rest.outcome && all.keys == w.keys + rest.keys && all.counters == w.indices + rest.counters
  }

  lemma ListAheadStep(all: ListWrites, w: Written, w': Written, archive: seq<string>, specs: seq<string>,
                      k: nat, rangeDelimiter: string, i: int)
    requires k < |specs| && ListAhead(all, w, ListResult(archive, specs, k, rangeDelimiter, i))
    requires var r := SpecResult(archive, specs[k], rangeDelimiter, i);
             w'.keys == w.keys + r.keys && w'.indices == w.indices + r.counters
    ensures var r := SpecResult(archive, specs[k], rangeDelimiter, i);
            (!r.outcome.Completed? ==> all == ListWrites(r.outcome, w'.keys, w'.indices)) &&
            (r.outcome.Completed? ==>
               ListAhead(all, w', ListResult(archive, specs, k + 1, rangeDelimiter, r.next + 1)))
  {
    var r := SpecResult(archive, specs[k], rangeDelimiter, i);
    assert ListResult(archive, specs, k, rangeDelimiter, i) == EntryResult(archive, specs, k, rangeDelimiter, i);
    if r.outcome.Completed? {
      var rest := ListResult(archive, specs, k + 1, rangeDelimiter, r.next + 1);
      AppendAssoc(w.keys, r.keys, rest.keys);
      AppendAssoc(w.indices, r.counters, rest.counters);
    }
  }


  lemma SpecResultSingle(archive: seq<string>, key: string, rangeDelimiter: string, i: int)
    requires |Split(key, rangeDelimiter)| == 1
    ensures Classify(Split(key, rangeDelimiter), key) == Single(key)
    ensures SpecResult(archive, key, rangeDelimiter, i)
            == if key in archive then SpecWrites(Completed, [key], [i], i) else SpecWrites(MissingKey(key), [], [], i)
  {
  }

  lemma SpecResultRange(archive: seq<string>, key: string, rangeDelimiter: string, i: int)
    requires var pieces := Split(key, rangeDelimiter); |pieces| == 2 && pieces[0] != [] && pieces[1] != []
    ensures var pieces := Split(key, rangeDelimiter);
            Classify(pieces, key) == Range(pieces[0], pieces[1]) &&
            (Find(archive, pieces[0]).None? ==>
               SpecResult(archive, key, rangeDelimiter, i) == SpecWrites(MissingKey(pieces[0]), [], [], i)) &&
            (Find(archive, pieces[0]).Some? ==>
               var start := Find(archive, pieces[0]).value;
               var stop := RangeEnd(archive, start, pieces[1]);
               SpecResult(archive, key, rangeDelimiter, i)
               == SpecWrites(Completed, archive[start..stop], Counters(i, stop - start), i + (stop - start)))
  {
  }

  lemma SpecResultIllegal(archive: seq<string>, key: string, rangeDelimiter: string, i: int)
    requires var pieces := Split(key, rangeDelimiter);
             |pieces| != 1 && !(|pieces| == 2 && pieces[0] != [] && pieces[1] != [])
    ensures Classify(Split(key, rangeDelimiter), key) == Illegal
    ensures SpecResult(archive, key, rangeDelimiter, i) == SpecWrites(IllegalRange(key), [], [], i)
  {
  }

  /** An extraction step that went from w to w', ended with outcome and left
      counter i did what r says. */
  predicate Wrote(w: Written, w': Written, outcome: Outcome, i: int, r: SpecWrites)
  {
    outcome == r.outcome && i == r.next && w'.keys == w.keys + r.keys && w'.indices == w.indices + r.counters
  }


  /** A single key: written with the current counter if present, otherwise
      extraction stops. */
  method ExtractSingle(archive: seq<string>, opts: NameOptions, key: string,
                       i0: int, w: Written, okey: string, nrep: int)
    returns (outcome: Outcome, i: int, w': Written, okey': string, nrep': int)
    requires i0 >= 0
    requires Consistent(w, okey, nrep, opts) && Progress(w, i0, archive)
    ensures Consistent(w', okey', nrep', opts) && Progress(w', i + 1, archive) && i == i0
    ensures outcome == (if key in archive then Completed else MissingKey(key))
    ensures outcome.Completed? ==> w'.keys == w.keys + [key] && w'.indices == w.indices + [i0]
    ensures !outcome.Completed? ==> w' == w
  {
    var found := Find(archive, key);
    if found.None? {
      return MissingKey(key), i0, w, okey, nrep;
    }
    w', okey', nrep' := WriteOne(w, okey, nrep, opts, key, i0);
    i := i0;
    outcome := Completed;
  }

  /** A range `beginKey..endKey`: both ends must be non-empty and the begin
      key present; then the range loop runs from the begin key's first
      occurrence, and the counter is left after the last FST it wrote. */
  method ExtractKeyRange(archive: seq<string>, opts: NameOptions, key: string,
                         beginKey: string, endKey: string,
                         i0: int, w: Written, okey: string, nrep: int)
    returns (outcome: Outcome, i: int, w': Written, okey': string, nrep': int)
    requires i0 >= 0
    requires Consistent(w, okey, nrep, opts) && Progress(w, i0, archive)
    ensures Consistent(w', okey', nrep', opts) && Progress(w', i + 1, archive) && i >= i0
    ensures outcome == IllegalRange(key) <==> beginKey == [] || endKey == []
    ensures outcome == MissingKey(beginKey) <==> beginKey != [] && endKey != [] && beginKey !in archive
    ensures outcome.Completed? || outcome == IllegalRange(key) || outcome == MissingKey(beginKey)
    ensures !outcome.Completed? ==> w' == w && i == i0
    ensures outcome.Completed? ==>
              Find(archive, beginKey).Some? &&
              var start := Find(archive, beginKey).value;
              var stop := RangeEnd(archive, start, endKey);
              i == i0 + (stop - start) && RangeWritten(w, w', archive, start, stop, i0)
  {
    if beginKey == [] || endKey == [] {
      return IllegalRange(key), i0, w, okey, nrep;
    }
    var found := Find(archive, beginKey);
    if found.None? {
      return MissingKey(beginKey), i0, w, okey, nrep;
    }
    var stop;
    stop, i, w', okey', nrep' := ExtractRange(archive, found.value, endKey, i0, w, okey, nrep, opts);
    ProgressAfterRange(w, w', i0, archive, found.value, stop);
    outcome := Completed;
  }

  /** One key specification of the key list, with the counter `i0` it gets:
      it writes what `SpecResult` says and leaves its counter. */
  method ExtractSpec(archive: seq<string>, opts: NameOptions, key: string, rangeDelimiter: string,
                     i0: int, w: Written, okey: string, nrep: int)
    returns (outcome: Outcome, i: int, w': Written, okey': string, nrep': int)
    requires i0 >= 0
    requires Consistent(w, okey, nrep, opts) && Progress(w, i0, archive)
    ensures Consistent(w', okey', nrep', opts) && Progress(w', i + 1, archive) && i >= i0
    ensures Wrote(w, w', outcome, i, SpecResult(archive, key, rangeDelimiter, i0))
    ensures outcome.MissingKey? ==> outcome.key !in archive
    ensures outcome == IllegalRange(key) <==> Classify(Split(key, rangeDelimiter), key).Illegal?
  {
    var rangeVector := SplitString(key, rangeDelimiter, false);
    if |rangeVector| == 1 {
      outcome, i, w', okey', nrep' := ExtractSingle(archive, opts, key, i0, w, okey, nrep);
      SpecResultSingle(archive, key, rangeDelimiter, i0);
    } else if |rangeVector| == 2 {
      outcome, i, w', okey', nrep' :=
        ExtractKeyRange(archive, opts, key, rangeVector[0], rangeVector[1], i0, w, okey, nrep);
      if rangeVector[0] != [] && rangeVector[1] != [] {
        SpecResultRange(archive, key, rangeDelimiter, i0);
      } else {
        SpecResultIllegal(archive, key, rangeDelimiter, i0);
      }
    } else {
      outcome, i, w', okey', nrep' := IllegalRange(key), i0, w, okey, nrep;
      SpecResultIllegal(archive, key, rangeDelimiter, i0);
    }
  }

  /** Writes every FST of the archive, counted from 1. */
  method ExtractAll(archive: seq<string>, opts: NameOptions) returns (w: Written)
    ensures Named(w, opts) && RepeatsCounted(w)
    ensures w.keys == archive
    ensures forall j :: 0 <= j < |w.indices| ==> w.indices[j] == j + 1
  {
    w := Empty();
    var okey: string := "";
    var nrep := 0;
    var i := 1;
    var pos := 0;
    while pos < |archive|
      invariant 0 <= pos <= |archive| && i == pos + 1
      invariant Consistent(w, okey, nrep, opts)
      invariant w.keys == archive[..pos]
      invariant forall j :: 0 <= j < |w.indices| ==> w.indices[j] == j + 1
    {
      var key := archive[pos];
      w, okey, nrep := WriteOne(w, okey, nrep, opts, key, i);
      assert archive[..pos + 1] == archive[..pos] + [key];
      pos, i := pos + 1, i + 1;
    }
    assert archive[..pos] == archive;
  }

  /** One turn of the key-list loop: the k-th specification is extracted
      with counter i0, and what remains of the list then still completes the
      writes so far to those of all of it. */
  method ExtractEntry(archive: seq<string>, opts: NameOptions, specs: seq<string>, k: nat,
                      rangeDelimiter: string, ghost all: ListWrites,
                      i0: int, w: Written, okey: string, nrep: int)
    returns (outcome: Outcome, i: int, w': Written, okey': string, nrep': int)
    requires k < |specs| && i0 >= 0
    requires Consistent(w, okey, nrep, opts) && Progress(w, i0, archive)
    requires ListAhead(all, w, ListResult(archive, specs, k, rangeDelimiter, i0))
    ensures Consistent(w', okey', nrep', opts) && Progress(w', i + 1, archive) && i >= i0
    ensures outcome.MissingKey? ==> outcome.key !in archive
    ensures outcome.IllegalRange? ==> Classify(Split(outcome.spec, rangeDelimiter), outcome.spec).Illegal?
    ensures !outcome.Completed? ==> all == ListWrites(outcome, w'.keys, w'.indices)
    ensures outcome.Completed? ==>
              ListAhead(all, w', ListResult(archive, specs, k + 1, rangeDelimiter, i + 1))
  {
    outcome, i, w', okey', nrep' := ExtractSpec(archive, opts, specs[k], rangeDelimiter, i0, w, okey, nrep);
    ListAheadStep(all, w, w', archive, specs, k, rangeDelimiter, i0);
  }

  /** What every extraction promises about the FSTs it wrote: paths by the
      naming rule, repetitions counted, counters increasing and not
      negative, keys from the archive. */
  predicate Extraction(w: Written, opts: NameOptions, archive: seq<string>)
  {
    Named(w, opts) && RepeatsCounted(w) &&
    Increasing(w.indices) && (forall j :: 0 <= j < |w.indices| ==> w.indices[j] >= 0) &&
    forall j :: 0 <= j < |w.keys| ==> w.keys[j] in archive
  }

  lemma ExtractedFacts(w: Written, okey: string, nrep: int, opts: NameOptions, i: int, archive: seq<string>)
    requires Consistent(w, okey, nrep, opts) && Progress(w, i, archive)
    ensures Extraction(w, opts, archive)
  {
  }

  /** The key-list loop: each specification in turn, from counter 0,
      until one does not complete; it writes what `ListResult` says. */
  method ExtractList(archive: seq<string>, opts: NameOptions, specs: seq<string>, rangeDelimiter: string)
    returns (outcome: Outcome, w: Written)
    ensures Extraction(w, opts, archive)
    ensures var all := ListResult(archive, specs, 0, rangeDelimiter, 0);
            outcome == all.outcome && w.keys == all.keys && w.indices == all.counters
    ensures outcome.MissingKey? ==> outcome.key !in archive
    ensures outcome.IllegalRange? ==>
              Classify(Split(outcome.spec, rangeDelimiter), outcome.spec).Illegal?
  {
    w := Empty();
    var okey: string := "";
    var nrep := 0;
    ghost var all := ListResult(archive, specs, 0, rangeDelimiter, 0);
    var i := 0;
    var k := 0;
    while k < |specs|
      invariant k <= |specs| && i >= 0
      invariant Consistent(w, okey, nrep, opts) && Progress(w, i, archive)
      invariant ListAhead(all, w, ListResult(archive, specs, k, rangeDelimiter, i))
    {
      outcome, i, w, okey, nrep := ExtractEntry(archive, opts, specs, k, rangeDelimiter, all, i, w, okey, nrep);
      if !outcome.Completed? {
        ExtractedFacts(w, okey, nrep, opts, i + 1, archive);
        return outcome, w;
      }
      k, i := k + 1, i + 1;
    }
    ExtractedFacts(w, okey, nrep, opts, i, archive);
    outcome := Completed;
  }

  /** `FarExtract` after the archive is open. With no keys, every FST of the
      archive is written, counted from 1. Otherwise the key list is split at
      the key separator (empty keys dropped) and each key specification is a
      single key, which must be present, or a range `begin<delim>end`, which
      writes the FSTs from `begin` (which must be present) up to the first key
      after `end`; the counter advances once per key specification and once
      per FST written by a range, so the result is `ListResult` from 0. */
  method FarExtract(archive: seq<string>, opts: NameOptions, keys: string,
                    keySeparator: string, rangeDelimiter: string)
    returns (outcome: Outcome, w: Written)
    ensures Named(w, opts) && RepeatsCounted(w)
    ensures Increasing(w.indices) && forall j :: 0 <= j < |w.indices| ==> w.indices[j] >= 0
    ensures forall j :: 0 <= j < |w.keys| ==> w.keys[j] in archive
    ensures keys == [] ==> outcome == Completed && w.keys == archive &&
                           forall j :: 0 <= j < |w.indices| ==> w.indices[j] == j + 1
    ensures keys != [] ==>
              var all := ListResult(archive, NonEmpty(Split(keys, keySeparator)), 0, rangeDelimiter, 0);
              outcome == all.outcome && w.keys == all.keys && w.indices == all.counters
    ensures outcome.MissingKey? ==> outcome.key !in archive
    ensures outcome.IllegalRange? ==>
              Classify(Split(outcome.spec, rangeDelimiter), outcome.spec).Illegal?
  {
    if keys == [] {
      w := ExtractAll(archive, opts);
      return Completed, w;
    }
    var keyVector := SplitString(keys, keySeparator, true);
    outcome, w := ExtractList(archive, opts, keyVector, rangeDelimiter);
  }

  /** With generated sources, no two FSTs of one extraction are written to
      the same path. */
  lemma GeneratedExtractionDistinct(opts: NameOptions, w: Written, j1: nat, j2: nat)
    requires opts.generateSources != 0
    requires Named(w, opts)
    requires Increasing(w.indices) && forall j :: 0 <= j < |w.indices| ==> w.indices[j] >= 0
    requires j1 < j2 < |w.paths|
    ensures w.paths[j1] != w.paths[j2]
  {
    NamedPaths(w, opts);
    GeneratedPathsDistinct(opts, w.indices[j1], w.indices[j2], w.keys[j1], w.keys[j2],
                           w.nreps[j1], w.nreps[j2]);
  }
}
