/** The pool of document converters: a least-recently-used cache whose two locked sections
    are separated by the construction of a new converter outside the lock. */
module ModelPool {
  import opened Text
  import opened Recency

  // ---------------------------------------------------------------- options and converters

  /** The options that decide how a converter is built. */
  datatype Options = Options(
    imageScale: real, doFormula: bool, doOcr: bool, doChart: bool, doCode: bool,
    tableFormat: string, numThreads: int, flashAttention: bool,
    includePageBreaks: bool, artifactsPath: Option<string>)

  datatype Key = Key(
    imageScale: real, doFormula: bool, doOcr: bool, doChart: bool, doCode: bool,
    tableFormat: string, numThreads: int, flashAttention: bool)

  function KeyOf(o: Options): Key {
    Key(o.imageScale, o.doFormula, o.doOcr, o.doChart, o.doCode, o.tableFormat, o.numThreads, o.flashAttention)
  }

  /** Callers share a cache entry exactly when all eight of these options agree. */
  lemma KeysAgreeIff(o: Options, p: Options)
    ensures KeyOf(o) == KeyOf(p) <==>
              && o.imageScale == p.imageScale && o.doFormula == p.doFormula && o.doOcr == p.doOcr
              && o.doChart == p.doChart && o.doCode == p.doCode && o.tableFormat == p.tableFormat
              && o.numThreads == p.numThreads && o.flashAttention == p.flashAttention
  {
  }

  /** A converter instance; the serial number stands for the identity of the object. */
  datatype Converter = Converter(serial: nat, options: Options)

  datatype Settings = Settings(
    artifactsPath: Option<string>, pictureImages: bool, imagesScale: real,
    formulaEnrichment: bool, ocr: bool, chartExtraction: bool, codeEnrichment: bool,
    pageImages: bool, parsedPages: bool, useGpu: bool, numThreads: int, flashAttention: bool)

  function EffectivePath(o: Options): Option<string> {
    if o.artifactsPath == Some("") then None else o.artifactsPath
  }

  /** The pipeline a converter built from these options runs with. */
  function SettingsOf(o: Options, gpu: bool): Settings {
    Settings(EffectivePath(o), true, o.imageScale, o.doFormula, o.doOcr, o.doChart, o.doCode,
             o.includePageBreaks, o.includePageBreaks, gpu, o.numThreads, o.flashAttention)
  }

  /** The options a pipeline was configured from, but for the table format. */
  function OptionsFrom(s: Settings, tableFormat: string): Options {
    Options(s.imagesScale, s.formulaEnrichment, s.ocr, s.chartExtraction, s.codeEnrichment,
            tableFormat, s.numThreads, s.flashAttention, s.pageImages, s.artifactsPath)
  }

  /** The settings show every option in its own place, but an empty artifacts path as none; the
      table format has no influence, and page breaks turn on both page settings. */
  lemma SettingsShowOptions(o: Options, tableFormat: string, gpu: bool)
    ensures OptionsFrom(SettingsOf(o, gpu), o.tableFormat)
            == o.(artifactsPath := if o.artifactsPath == Some("") then None else o.artifactsPath)
    ensures SettingsOf(o.(tableFormat := tableFormat), gpu) == SettingsOf(o, gpu)
    ensures SettingsOf(o, gpu).parsedPages == o.includePageBreaks && SettingsOf(o, gpu).pictureImages
  {
  }

  // ---------------------------------------------------------------- the pool

  datatype Pool = Pool(items: map<Key, Converter>, order: seq<Key>)

  function Touch(p: Pool, k: Key): Pool {
    p.(order := (if k in p.order then RemoveFirst(p.order, k) else p.order) + [k])
  }

  /** The first locked section: a hit refreshes the key and returns the cached instance. */
  function LookUp(p: Pool, k: Key): (Pool, Option<Converter>) {
    if k in p.items then (Touch(p, k), Some(p.items[k])) else (p, None)
  }

  /** The second locked section.  The result is None when evicting from an empty access
      list raises an IndexError. */
  function Publish(p: Pool, k: Key, c: Converter, maxSize: int): (Pool, Option<Converter>) {
    if k in p.items then (Touch(p, k), Some(p.items[k]))
    else if |p.items| >= maxSize then
      if p.order == [] then (p, None)
      else (Pool((p.items - {p.order[0]})[k := c], p.order[1..] + [k]), Some(c))
    else (Pool(p.items[k := c], p.order + [k]), Some(c))
  }

  // ---------------------------------------------------------------- least recently used

  /** The pool caches exactly the `maxSize` most recently used keys of the trace, or all of
      them when there are fewer, and lists them in order of use. */
  ghost predicate IsLru(p: Pool, trace: seq<Key>, maxSize: int) {
    p.order == Last(ByLastUse(trace), maxSize) && p.items.Keys == Elements(p.order)
  }

  lemma LruFacts(p: Pool, trace: seq<Key>, maxSize: int)
    requires IsLru(p, trace, maxSize)
    ensures Distinct(p.order) && |p.order| == |p.items|
    ensures maxSize >= 1 ==> |p.items| <= maxSize
  {
    ByLastUseElements(trace);
    LastParts(ByLastUse(trace), maxSize);
    DistinctCount(p.order);
    assert |p.items| == |p.items.Keys|;
  }

  lemma TouchIsLru(p: Pool, trace: seq<Key>, k: Key, maxSize: int)
    requires IsLru(p, trace, maxSize) && k in p.items
    ensures IsLru(Touch(p, k), trace + [k], maxSize)
  {
    LruFacts(p, trace, maxSize);
    LastSnoc(trace, k, maxSize);
    RemoveFirstIsWithout(p.order, k);
    SnocElements(RemoveFirst(p.order, k), k);
    assert Elements(RemoveFirst(p.order, k)) + {k} == Elements(p.order);
  }

  lemma SnocElements(order: seq<Key>, k: Key)
    ensures Elements(order + [k]) == Elements(order) + {k}
  {
  }

  lemma EvictKeys(p: Pool, k: Key, c: Converter)
    requires Distinct(p.order) && p.order != [] && p.items.Keys == Elements(p.order)
    ensures (p.items - {p.order[0]})[k := c].Keys == Elements(p.order[1..] + [k])
  {
    SnocElements(p.order[1..], k);
  }

  lemma EvictIsLru(p: Pool, trace: seq<Key>, k: Key, c: Converter, maxSize: int)
    requires IsLru(p, trace, maxSize) && maxSize >= 1 && k !in p.order && |p.items| == |p.order| == maxSize
    ensures IsLru(Pool((p.items - {p.order[0]})[k := c], p.order[1..] + [k]), trace + [k], maxSize)
  {
    LruFacts(p, trace, maxSize);
    LastSnoc(trace, k, maxSize);
    EvictKeys(p, k, c);
  }

  lemma RoomIsLru(p: Pool, trace: seq<Key>, k: Key, c: Converter, maxSize: int)
    requires IsLru(p, trace, maxSize) && k !in p.order && |p.items| == |p.order| < maxSize
    ensures IsLru(Pool(p.items[k := c], p.order + [k]), trace + [k], maxSize)
  {
    LastSnoc(trace, k, maxSize);
    SnocElements(p.order, k);
  }

  lemma InsertIsLru(p: Pool, trace: seq<Key>, k: Key, c: Converter, maxSize: int)
    requires IsLru(p, trace, maxSize) && maxSize >= 1 && k !in p.items
    ensures Publish(p, k, c, maxSize).1 == Some(c)
    ensures IsLru(Publish(p, k, c, maxSize).0, trace + [k], maxSize)
  {
    LruFacts(p, trace, maxSize);
    assert k !in p.order;
    if |p.items| >= maxSize {
      EvictIsLru(p, trace, k, c, maxSize);
    } else {
      RoomIsLru(p, trace, k, c, maxSize);
    }
  }

  lemma PublishIsLru(p: Pool, trace: seq<Key>, k: Key, c: Converter, maxSize: int)
    requires IsLru(p, trace, maxSize)
    ensures Publish(p, k, c, maxSize).1.Some? <==> maxSize >= 1
    ensures maxSize >= 1 ==> IsLru(Publish(p, k, c, maxSize).0, trace + [k], maxSize)
    ensures maxSize <= 0 ==> Publish(p, k, c, maxSize).0 == p && p.items == map[]
  {
    LruFacts(p, trace, maxSize);
    if k in p.items {
      TouchIsLru(p, trace, k, maxSize);
    } else if maxSize >= 1 {
      InsertIsLru(p, trace, k, c, maxSize);
    }
  }

  /** The class of the source.  The ghost trace records the accesses since the last reset
      in the order of their locked sections. */
  class ThreadSafeModelPool {
    const maxSize: int
    var items: map<Key, Converter>
    var order: seq<Key>
    ghost var trace: seq<Key>

    ghost predicate Valid()
      reads this
    {
      IsLru(Pool(items, order), trace, maxSize)
    }

    constructor (maxSize: int)
      ensures Valid() && this.maxSize == maxSize && trace == []
    {
      this.maxSize := maxSize;
      items, order, trace := map[], [], [];
    }

    method FirstSection(key: Key) returns (found: Option<Converter>)
      requires Valid()
      modifies this
      ensures Valid()
      ensures (Pool(items, order), found) == old(LookUp(Pool(items, order), key))
      ensures trace == if found.Some? then old(trace) + [key] else old(trace)
    {
      if key in items {
        TouchIsLru(Pool(items, order), trace, key, maxSize);
        if key in order {
          order := RemoveFirst(order, key);
        }
        order := order + [key];
        trace := trace + [key];
        return Some(items[key]);
      }
      found := None;
    }

    method SecondSection(key: Key, converter: Converter) returns (served: Option<Converter>)
      requires Valid()
      modifies this
      ensures Valid()
      ensures (Pool(items, order), served) == old(Publish(Pool(items, order), key, converter, maxSize))
      ensures served.Some? <==> maxSize >= 1
      ensures trace == if served.Some? then old(trace) + [key] else old(trace)
    {
      PublishIsLru(Pool(items, order), trace, key, converter, maxSize);
      if key in items {
        if key in order {
          order := RemoveFirst(order, key);
        }
        order := order + [key];
        trace := trace + [key];
        return Some(items[key]);
      }
      if |items| >= maxSize {
        if order == [] {
          return None;
        }
        var lruKey := order[0];
        order := order[1..];
        items := items - {lruKey};
      }
      items := items[key := converter];
      order := order + [key];
      trace := trace + [key];
      served := Some(converter);
    }

    /** One call with no other thread in between; `serial` is the identity the new
        converter gets if one is built. */
    method GetConverter(options: Options, serial: nat) returns (served: Option<Converter>)
      requires Valid()
      modifies this
      ensures Valid()
      ensures maxSize >= 1 ==> trace == old(trace) + [KeyOf(options)] && KeyOf(options) in items
      ensures maxSize >= 1 ==> served == Some(items[KeyOf(options)])
      ensures KeyOf(options) in old(items) ==> items == old(items)
      ensures maxSize >= 1 && KeyOf(options) !in old(items) ==> served == Some(Converter(serial, options))
      ensures maxSize <= 0 ==> served == None && items == map[]
    {
      var key := KeyOf(options);
      LruFacts(Pool(items, order), trace, maxSize);
      served := FirstSection(key);
      if served.Some? {
        return;
      }
      served := SecondSection(key, Converter(serial, options));
    }

    /** The two statements with which the first conversion empties the pool. */
    method Reset()
      modifies this
      ensures Valid() && items == map[] && order == [] && trace == []
    {
      items := map[];
      order := [];
      trace := [];
    }
  }

  // ---------------------------------------------------------------- main results on the pool

  /** The pool after undisturbed calls for the given options, from the start. */
  function PoolAfter(calls: seq<Options>, maxSize: int): Pool {
    if calls == [] then Pool(map[], [])
    else
      var options, before := calls[|calls| - 1], PoolAfter(calls[..|calls| - 1], maxSize);
      var (p, found) := LookUp(before, KeyOf(options));
      if found.Some? then p else Publish(p, KeyOf(options), Converter(|calls|, options), maxSize).0
  }

  function Keys(calls: seq<Options>): seq<Key> {
    seq(|calls|, i requires 0 <= i < |calls| => KeyOf(calls[i]))
  }

  lemma {:induction false} PoolAfterIsLru(calls: seq<Options>, maxSize: int)
    ensures IsLru(PoolAfter(calls, maxSize), Keys(calls), maxSize)
  {
    if calls == [] {
      assert Last(ByLastUse<Key>([]), maxSize) == [];
    } else {
      var options, init := calls[|calls| - 1], calls[..|calls| - 1];
      var k, before := KeyOf(options), PoolAfter(init, maxSize);
      PoolAfterIsLru(init, maxSize);
      assert Keys(calls) == Keys(init) + [k];
      LruFacts(before, Keys(init), maxSize);
      if k in before.items {
        TouchIsLru(before, Keys(init), k, maxSize);
      } else {
        PublishIsLru(before, Keys(init), k, Converter(|calls|, options), maxSize);
      }
    }
  }

  /** `q` caches every key that `p` does, and its access list ends in that of `p`. */
  predicate Includes(q: Pool, p: Pool) {
    && p.items.Keys <= q.items.Keys
    && |p.order| <= |q.order| && p.order == q.order[|q.order| - |p.order|..]
  }

  lemma SameTraceIncludes(p: Pool, q: Pool, trace: seq<Key>, m: int, n: int)
    requires m <= n && IsLru(p, trace, m) && IsLru(q, trace, n)
    ensures Includes(q, p)
  {
    ByLastUseElements(trace);
    LastParts(ByLastUse(trace), m);
    LastParts(ByLastUse(trace), n);
  }

  /** After the same calls a larger pool includes a smaller one. */
  lemma LargerPoolIncludesSmaller(calls: seq<Options>, m: int, n: int)
    requires m <= n
    ensures Includes(PoolAfter(calls, n), PoolAfter(calls, m))
  {
    PoolAfterIsLru(calls, m);
    PoolAfterIsLru(calls, n);
    SameTraceIncludes(PoolAfter(calls, m), PoolAfter(calls, n), Keys(calls), m, n);
  }

  /** A cached converter runs the pipeline a fresh one would run exactly when the two
      options the key leaves out agree. */
  lemma CachedEqualsFresh(cached: Options, wanted: Options, gpu: bool)
    requires KeyOf(cached) == KeyOf(wanted)
    ensures SettingsOf(cached, gpu) == SettingsOf(wanted, gpu)
       <==> cached.includePageBreaks == wanted.includePageBreaks && EffectivePath(cached) == EffectivePath(wanted)
  {
  }
}
