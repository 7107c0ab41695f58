/** The filter registry and line dispatch of class `Monitor`
    (src/main/monitor.js:4-52): an insertion-ordered set of filters, one
    callback slot per event name, and `processData`, which hands every line to
    the `line` callback once per filter whose expression matches it. */
module ChatMonitor {
  import opened Wrappers
  import opened JsStrings
  import opened ChatLine

  /** One `{ raw, exp }` entry of the filter set. `exp` is `new RegExp(raw, 'i')`,
      a function of `raw` alone: without the 'g' flag `test` keeps no scan
      position. Every `addFilter` makes a new object, so two entries may share
      a `raw`. */
  datatype Filter = Filter(raw: string)

  /** A callback registered with `on`, known by its identity only. */
  datatype Callback = Callback(id: nat)

  /** What `fire` passes to a callback: `{ info, filter }` for a matching
      line, or the error the file tail reported. */
  datatype Payload = LineData(info: Info, filter: string) | ErrorData(error: string)

  /** One call of a registered callback. */
  datatype Delivery = Delivery(callback: Callback, payload: Payload)

  /** The exceptions that escape `processData`: `getInfo` on a line with no
      channel marker, or `fire` for an event nobody registered a callback for
      (`this.events[event]` is undefined and is called). */
  datatype Fault = GetInfoFailed(error: ParseError) | NoCallback(event: string)

  /** What handling some input amounts to: the callback calls made, in order,
      and the exception that stopped it, if any. */
  datatype Run = Run(out: seq<Delivery>, fault: Option<Fault>)

  /** `new RegExp(raw, 'i').test(line)`, for a regular-expression engine the
      model does not describe. */
  type Matcher = (string, string) -> bool

  /** The raw patterns of the entries, in set order:
      `Array.from(filters).map(v => v.raw)`. */
  function Raws(fs: seq<Filter>): (r: seq<string>)
    ensures |r| == |fs|
    ensures forall k :: 0 <= k < |fs| ==> r[k] == fs[k].raw
  {
    if fs == [] then [] else Raws(fs[..|fs| - 1]) + [fs[|fs| - 1].raw]
  }

  /** The set after `removeFilter(p)`: every entry whose `raw` is `p` deleted. */
  function Removed(fs: seq<Filter>, p: string): seq<Filter>
  {
    if fs == [] then []
    else Removed(fs[..|fs| - 1], p) + (if fs[|fs| - 1].raw == p then [] else [fs[|fs| - 1]])
  }

  /** The raw patterns of the entries whose expression matches `line`, in set order. */
  function Matching(matches: Matcher, fs: seq<Filter>, line: string): seq<string>
  {
    if fs == [] then []
    else
      var last := fs[|fs| - 1];
      Matching(matches, fs[..|fs| - 1], line) + (if matches(last.raw, line) then [last.raw] else [])
  }

  /** One `line` delivery per matching pattern, in order, all carrying `info`. */
  function LineDeliveries(cb: Callback, info: Info, raws: seq<string>): seq<Delivery>
  {
    if raws == [] then []
    else LineDeliveries(cb, info, raws[..|raws| - 1]) + [Delivery(cb, LineData(info, raws[|raws| - 1]))]
  }

  /** `first` followed by `next`, unless `first` threw. */
  function Then(first: Run, next: Run): Run
  {
    if first.fault.Some? then first else Run(first.out + next.out, next.fault)
  }

  /** One matching entry: `this.fire('line', { info: Monitor.getInfo(data),
      filter: filter.raw })`. The payload is built, and `getInfo` called,
      before `fire` looks the callback up. */
  function FireRun(events: map<string, Callback>, line: string, raw: string): Run
  {
    match ParseLine(line)
    case Failure(e) => Run([], Some(GetInfoFailed(e)))
    case Success(info) =>
      if "line" in events then Run([Delivery(events["line"], LineData(info, raw))], None)
      else Run([], Some(NoCallback("line")))
  }

  /** What an entry does to a line: fires when its expression matches. */
  function EntryRun(matches: Matcher, events: map<string, Callback>, line: string, f: Filter): Run
  {
    if matches(f.raw, line) then FireRun(events, line, f.raw) else Run([], None)
  }

  /** `this.filters.forEach(...)` of `processData(line)` for a line without
      '\n': the entries in set order, until one throws. */
  function LineRun(matches: Matcher, fs: seq<Filter>, events: map<string, Callback>, line: string): Run
  {
    if fs == [] then Run([], None)
    else Then(LineRun(matches, fs[..|fs| - 1], events, line), EntryRun(matches, events, line, fs[|fs| - 1]))
  }

  /** The same run described by its result: nothing when no entry matches
      (`getInfo` is then never called); otherwise the exception of `getInfo`
      or of `fire`, if any, raised before any delivery, else one delivery per
      matching entry, in order, all carrying the same info. */
  function LineOutcome(matches: Matcher, fs: seq<Filter>, events: map<string, Callback>, line: string): Run
  {
    var hits := Matching(matches, fs, line);
    if hits == [] then Run([], None)
    else match ParseLine(line)
      case Failure(e) => Run([], Some(GetInfoFailed(e)))
      case Success(info) =>
        if "line" in events then Run(LineDeliveries(events["line"], info, hits), None)
        else Run([], Some(NoCallback("line")))
  }

  /** `pieces.forEach(line => this.processData(line))` for pieces without '\n'. */
  function PiecesRun(matches: Matcher, fs: seq<Filter>, events: map<string, Callback>, pieces: seq<string>): Run
  {
    if pieces == [] then Run([], None)
    else Then(LineRun(matches, fs, events, pieces[0]), PiecesRun(matches, fs, events, pieces[1..]))
  }

  /** `processData(data)`: data holding '\n' is handled piece by piece. */
  function DataRun(matches: Matcher, fs: seq<Filter>, events: map<string, Callback>, data: string): Run
  {
    if Contains(data, "\n") then PiecesRun(matches, fs, events, Split(data, "\n"))
    else LineRun(matches, fs, events, data)
  }

  class Monitor {
    /** The chat log the file tail follows; the tail itself is not modelled. */
    const filename: string
    const matches: Matcher
    /** Whether `new RegExp(raw, 'i')` accepts the pattern. */
    const compiles: string -> bool
    var events: map<string, Callback>
    var filters: seq<Filter>
    /** Every callback call made so far, oldest first. */
    var log: seq<Delivery>

    constructor (filename: string, matches: Matcher, compiles: string -> bool)
      ensures this.filename == filename && this.matches == matches && this.compiles == compiles
      ensures events == map[] && filters == [] && log == []
    {
      this.filename := filename;
      this.matches := matches;
      this.compiles := compiles;
      events := map[];
      filters := [];
      log := [];
    }

    /** `on(event, callback)`: the callback replaces any earlier one for `event`. */
    method On(event: string, callback: Callback)
      modifies this`events
      ensures events == old(events)[event := callback]
    {
      events := events[event := callback];
    }

    /** `fire(event, data)`: calls the callback last registered for `event`;
        with none registered, calling undefined throws. */
    method Fire(event: string, payload: Payload) returns (fault: Option<Fault>)
      modifies this`log
      ensures event in events ==> fault == None && log == old(log) + [Delivery(events[event], payload)]
      ensures event !in events ==> fault == Some(NoCallback(event)) && log == old(log)
    {
      if event in events {
        log := log + [Delivery(events[event], payload)];
        fault := None;
      } else {
        fault := Some(NoCallback(event));
      }
    }

    /** The tail's `error` handler: `this.fire('error', error)`. */
    method TailError(error: string) returns (fault: Option<Fault>)
      modifies this`log
      ensures "error" in events ==> fault == None && log == old(log) + [Delivery(events["error"], ErrorData(error))]
      ensures "error" !in events ==> fault == Some(NoCallback("error")) && log == old(log)
    {
      fault := Fire("error", ErrorData(error));
    }

    /** `addFilter(p)`: a new entry goes at the end, even when one with the
        same pattern is already there. A pattern `RegExp` rejects throws and
        adds nothing. */
    method AddFilter(p: string) returns (ok: bool)
      modifies this`filters
      ensures ok == compiles(p)
      ensures filters == if ok then old(filters) + [Filter(p)] else old(filters)
    {
      ok := compiles(p);
      if ok {
        filters := filters + [Filter(p)];
      }
    }

    /** `removeFilter(p)`: walks the set once and deletes each entry whose
        `raw` is `p` as it reaches it. */
    method RemoveFilter(p: string)
      modifies this`filters
      ensures filters == Removed(old(filters), p)
    {
      var entries := filters;
      var i, kept := 0, 0;
      while i < |entries|
        invariant 0 <= i <= |entries|
        invariant kept == |Removed(entries[..i], p)|
        invariant filters == Removed(entries[..i], p) + entries[i..]
      {
        RemoveStep(entries, i, p, filters);
        if entries[i].raw == p {
          filters := filters[..kept] + filters[kept + 1..];
        } else {
          kept := kept + 1;
        }
        i := i + 1;
      }
      assert entries[..i] == entries;
      assert filters == Removed(entries, p) + [];
    }

    /** `processData(data)`: data holding '\n' is split into lines and each
        line goes through `processData` again, in order, until one of them
        throws. */
    method ProcessData(data: string) returns (fault: Option<Fault>)
      modifies this`log
      ensures log == old(log) + DataRun(matches, filters, events, data).out
      ensures fault == DataRun(matches, filters, events, data).fault
      decreases if Contains(data, "\n") then 1 else 0
    {
      if !Contains(data, "\n") {
        fault := DispatchLine(data);
        return;
      }
      var pieces := Split(data, "\n");
      SplitPiecesAreFree(data, "\n");
      ghost var done: seq<Delivery> := [];
      var i := 0;
      fault := None;
      while i < |pieces|
        invariant 0 <= i <= |pieces|
        invariant fault == None
        invariant log == old(log) + done
        invariant Then(Run(done, None), PiecesRun(matches, filters, events, pieces[i..]))
                  == PiecesRun(matches, filters, events, pieces)
      {
        var piece := pieces[i];
        ghost var first := LineRun(matches, filters, events, piece);
        assert pieces[i..][1..] == pieces[i + 1..];
        ThenStep(done, first, PiecesRun(matches, filters, events, pieces[i + 1..]));
        fault := ProcessData(piece);
        AppendAssoc(old(log), done, first.out);
        if fault.Some? {
          return;
        }
        done := done + first.out;
        i := i + 1;
      }
      assert done + [] == done;
    }

    /** The `this.filters.forEach` of `processData`, for a line without '\n'. */
    method DispatchLine(line: string) returns (fault: Option<Fault>)
      modifies this`log
      ensures log == old(log) + LineRun(matches, filters, events, line).out
      ensures fault == LineRun(matches, filters, events, line).fault
    {
      var fs := filters;
      var i := 0;
      fault := None;
      while i < |fs|
        invariant 0 <= i <= |fs|
        invariant fault == None == LineRun(matches, fs[..i], events, line).fault
        invariant log == old(log) + LineRun(matches, fs[..i], events, line).out
      {
        ghost var before := LineRun(matches, fs[..i], events, line).out;
        LineRunStep(matches, fs, events, line, i);
        if matches(fs[i].raw, line) {
          fault := FireMatch(line, fs[i].raw);
          if fault.Some? {
            LineRunFaultIsFinal(matches, fs, events, line, i + 1);
            return;
          }
          AppendAssoc(old(log), before, FireRun(events, line, fs[i].raw).out);
        } else {
          assert before + [] == before;
        }
        i := i + 1;
      }
      assert fs[..i] == fs;
    }

    /** The body of the `forEach` for an entry that matches. */
    method FireMatch(line: string, raw: string) returns (fault: Option<Fault>)
      modifies this`log
      ensures log == old(log) + FireRun(events, line, raw).out
      ensures fault == FireRun(events, line, raw).fault
    {
      var info := GetInfo(line);
      if info.Failure? {
        assert log == old(log) + [];
        return Some(GetInfoFailed(info.error));
      }
      fault := Fire("line", LineData(info.value, raw));
      if fault.Some? {
        assert log == old(log) + [];
      }
    }
  }

  lemma LineRunStep(matches: Matcher, fs: seq<Filter>, events: map<string, Callback>, line: string, i: nat)
    requires i < |fs|
    ensures LineRun(matches, fs[..i + 1], events, line) ==
      Then(LineRun(matches, fs[..i], events, line), EntryRun(matches, events, line, fs[i]))
  {
    assert fs[..i + 1][..i] == fs[..i];
  }

  /** Once the entries before `i` have thrown, the later ones are never
      reached. */
  lemma {:induction false} LineRunFaultIsFinal(matches: Matcher, fs: seq<Filter>, events: map<string, Callback>, line: string, i: nat)
    requires i <= |fs| && LineRun(matches, fs[..i], events, line).fault.Some?
    ensures LineRun(matches, fs, events, line) == LineRun(matches, fs[..i], events, line)
    decreases |fs| - i
  {
    if i == |fs| {
      assert fs[..i] == fs;
    } else {
      LineRunStep(matches, fs, events, line, i);
      LineRunFaultIsFinal(matches, fs, events, line, i + 1);
    }
  }

  lemma RemovedStep(fs: seq<Filter>, i: nat, p: string)
    requires i < |fs|
    ensures Removed(fs[..i + 1], p) == Removed(fs[..i], p) + (if fs[i].raw == p then [] else [fs[i]])
  {
    assert fs[..i + 1][..i] == fs[..i];
  }

  /** One step of `removeFilter`'s walk: with the entries before `i` already
      handled, deleting entry `i` (when its raw is `p`) or keeping it leaves
      the entries up to `i` handled. */
  lemma RemoveStep(entries: seq<Filter>, i: nat, p: string, cur: seq<Filter>)
    requires i < |entries|
    requires cur == Removed(entries[..i], p) + entries[i..]
    ensures var kept := |Removed(entries[..i], p)|;
      kept < |cur| &&
      (entries[i].raw == p ==> cur[..kept] + cur[kept + 1..] == Removed(entries[..i + 1], p) + entries[i + 1..]) &&
      (entries[i].raw != p ==>
        cur == Removed(entries[..i + 1], p) + entries[i + 1..] &&
        kept + 1 == |Removed(entries[..i + 1], p)|)
  {
    var prefix := Removed(entries[..i], p);
    RemovedStep(entries, i, p);
    DeleteOrKeep(prefix, entries[i..]);
    assert entries[i..][1..] == entries[i + 1..];
  }

  /** Deleting the entry just after `prefix` leaves `prefix` and the entries
      after it; keeping it moves it into the prefix. */
  lemma DeleteOrKeep(prefix: seq<Filter>, rest: seq<Filter>)
    requires rest != []
    ensures (prefix + rest)[..|prefix|] + (prefix + rest)[|prefix| + 1..] == prefix + rest[1..]
    ensures prefix + rest == (prefix + [rest[0]]) + rest[1..]
  {
    assert (prefix + rest)[..|prefix|] == prefix;
    assert (prefix + rest)[|prefix| + 1..] == rest[1..];
  }

  /** Running `first` after `done`, then the rest: a fault in `first` ends
      the run there. */
  lemma ThenStep(done: seq<Delivery>, first: Run, rest: Run)
    ensures Then(Run(done, None), Then(first, rest)) ==
      if first.fault.Some? then Run(done + first.out, first.fault)
      else Then(Run(done + first.out, None), rest)
  {
    if first.fault.None? {
      AppendAssoc(done, first.out, rest.out);
    }
  }

  lemma AppendAssoc(a: seq<Delivery>, b: seq<Delivery>, c: seq<Delivery>)
    ensures (a + b) + c == a + (b + c)
  {
  }

  lemma MatchingStep(matches: Matcher, fs: seq<Filter>, i: nat, line: string)
    requires i < |fs|
    ensures Matching(matches, fs[..i + 1], line) ==
      Matching(matches, fs[..i], line) + (if matches(fs[i].raw, line) then [fs[i].raw] else [])
  {
    assert fs[..i + 1][..i] == fs[..i];
  }

  /** A pattern is reported for a line exactly when some entry of the set has
      that pattern and its expression matches the line. */
  lemma {:induction false} MatchingIsTheMatchingPatterns(matches: Matcher, fs: seq<Filter>, line: string)
    ensures forall x :: x in Matching(matches, fs, line) <==> (matches(x, line) && exists f :: f in fs && f.raw == x)
    decreases |fs|
  {
    if fs != [] {
      var init, last := fs[..|fs| - 1], fs[|fs| - 1];
      MatchingIsTheMatchingPatterns(matches, init, line);
      assert fs == init + [last];
      forall x | matches(x, line) && exists f :: f in fs && f.raw == x
        ensures x in Matching(matches, fs, line)
      {
        var f :| f in fs && f.raw == x;
        if f != last {
          assert f in init;
        }
      }
    }
  }

  /** Each matching pattern is reported once per entry that has it: two
      entries with the same pattern report it twice. */
  lemma {:induction false} MatchingCountsEntries(matches: Matcher, fs: seq<Filter>, line: string)
    ensures forall x :: multiset(Matching(matches, fs, line))[x] ==
                        if matches(x, line) then multiset(Raws(fs))[x] else 0
    decreases |fs|
  {
    if fs != [] {
      var init, last := fs[..|fs| - 1], fs[|fs| - 1];
      MatchingCountsEntries(matches, init, line);
      assert Raws(fs) == Raws(init) + [last.raw];
    }
  }

  lemma DeliveriesSnoc(cb: Callback, info: Info, raws: seq<string>, raw: string)
    ensures LineDeliveries(cb, info, raws + [raw]) ==
      LineDeliveries(cb, info, raws) + [Delivery(cb, LineData(info, raw))]
  {
    assert (raws + [raw])[..|raws|] == raws;
  }

  /** The k-th delivery reports the k-th pattern. */
  lemma {:induction false} DeliveriesFollowPatterns(cb: Callback, info: Info, raws: seq<string>)
    ensures |LineDeliveries(cb, info, raws)| == |raws|
    ensures forall k :: 0 <= k < |raws| ==>
      LineDeliveries(cb, info, raws)[k] == Delivery(cb, LineData(info, raws[k]))
    decreases |raws|
  {
    if raws != [] {
      DeliveriesFollowPatterns(cb, info, raws[..|raws| - 1]);
    }
  }

  /** The entry-by-entry run and its description by result agree. */
  lemma {:induction false} LineRunIsOutcome(matches: Matcher, fs: seq<Filter>, events: map<string, Callback>, line: string)
    ensures LineRun(matches, fs, events, line) == LineOutcome(matches, fs, events, line)
    decreases |fs|
  {
    if fs != [] {
      var init, last := fs[..|fs| - 1], fs[|fs| - 1];
      LineRunIsOutcome(matches, init, events, line);
      var prev := LineRun(matches, init, events, line);
      var hits := Matching(matches, init, line);
      if !matches(last.raw, line) {
        assert Matching(matches, fs, line) == hits;
        assert prev.out + [] == prev.out;
      } else if ParseLine(line).Success? && "line" in events {
        DeliveriesSnoc(events["line"], ParseLine(line).value, hits, last.raw);
      } else {
        assert Matching(matches, fs, line) != [];
      }
    }
  }

  /** What `processData(line)` does for a line without '\n': with no
      matching entry nothing at all; otherwise it throws, before any
      delivery, exactly when the line has no channel marker or no `line`
      callback is registered, and else calls that callback once per matching
      entry, in set order, each time with the line's info and the entry's
      pattern. */
  lemma LineRunDeliversOncePerMatch(matches: Matcher, fs: seq<Filter>, events: map<string, Callback>, line: string)
    ensures var r, hits := LineRun(matches, fs, events, line), Matching(matches, fs, line);
      (hits == [] ==> r == Run([], None)) &&
      (r.fault.Some? <==> hits != [] && (ParseLine(line).Failure? || "line" !in events)) &&
      (r.fault.Some? ==> r.out == []) &&
      (r.fault.None? && hits != [] ==>
        ParseLine(line).Success? && "line" in events && |r.out| == |hits| &&
        forall k :: 0 <= k < |hits| ==>
          r.out[k] == Delivery(events["line"], LineData(ParseLine(line).value, hits[k])))
  {
    LineRunIsOutcome(matches, fs, events, line);
    var hits := Matching(matches, fs, line);
    if hits != [] && ParseLine(line).Success? && "line" in events {
      DeliveriesFollowPatterns(events["line"], ParseLine(line).value, hits);
    }
  }

  /** Removal works entry by entry: removing from a concatenation removes
      from each part and keeps the parts in order. */
  lemma {:induction false} RemovedAppend(a: seq<Filter>, b: seq<Filter>, p: string)
    ensures Removed(a + b, p) == Removed(a, p) + Removed(b, p)
    decreases |b|
  {
    if b == [] {
      assert a + b == a;
    } else {
      var b', last := b[..|b| - 1], b[|b| - 1];
      assert (a + b)[..|a + b| - 1] == a + b';
      assert (a + b)[|a + b| - 1] == last;
      RemovedAppend(a, b', p);
    }
  }

  /** `removeFilter(p)` deletes every entry with pattern `p` and keeps every
      other entry, each as often as before. */
  lemma {:induction false} RemovedDropsExactlyPattern(fs: seq<Filter>, p: string)
    ensures forall f :: multiset(Removed(fs, p))[f] == if f.raw == p then 0 else multiset(fs)[f]
    decreases |fs|
  {
    if fs != [] {
      var init, last := fs[..|fs| - 1], fs[|fs| - 1];
      RemovedDropsExactlyPattern(init, p);
      assert fs == init + [last];
    }
  }

  /** Removing a pattern no entry has changes nothing. */
  lemma {:induction false} RemoveAbsentIsNoOp(fs: seq<Filter>, p: string)
    requires forall k :: 0 <= k < |fs| ==> fs[k].raw != p
    ensures Removed(fs, p) == fs
    decreases |fs|
  {
    if fs != [] {
      RemoveAbsentIsNoOp(fs[..|fs| - 1], p);
    }
  }

  /** Removing twice is removing once. */
  lemma {:induction false} RemoveIsIdempotent(fs: seq<Filter>, p: string)
    ensures Removed(Removed(fs, p), p) == Removed(fs, p)
  {
    RemovedDropsExactlyPattern(fs, p);
    forall k | 0 <= k < |Removed(fs, p)|
      ensures Removed(fs, p)[k].raw != p
    {
      assert Removed(fs, p)[k] in multiset(Removed(fs, p));
    }
    RemoveAbsentIsNoOp(Removed(fs, p), p);
  }

  /** Adding a pattern and then removing it leaves the set as removing it
      alone would: the new entry and every older one with that pattern go.
      When no entry had the pattern before, the set and its list of raw
      patterns are restored. */
  lemma AddThenRemove(fs: seq<Filter>, p: string)
    ensures Removed(fs + [Filter(p)], p) == Removed(fs, p)
    ensures (forall k :: 0 <= k < |fs| ==> fs[k].raw != p) ==>
      Removed(fs + [Filter(p)], p) == fs && Raws(Removed(fs + [Filter(p)], p)) == Raws(fs)
  {
    RemovedAppend(fs, [Filter(p)], p);
    assert Removed([Filter(p)], p) == [];
    if forall k :: 0 <= k < |fs| ==> fs[k].raw != p {
      RemoveAbsentIsNoOp(fs, p);
    }
  }

  /** The list of raw patterns saved after `addFilter(p)` is the old list
      with `p` at the end. */
  lemma RawsAfterAdd(fs: seq<Filter>, p: string)
    ensures Raws(fs + [Filter(p)]) == Raws(fs) + [p]
  {
    assert (fs + [Filter(p)])[..|fs|] == fs;
  }

  /** `processData` on data holding '\n': the text before the first '\n'
      is handled as a line, then the rest as data of its own. */
  lemma NewlineSplitsOffFirstLine(matches: Matcher, fs: seq<Filter>, events: map<string, Callback>, a: string, b: string)
    requires '\n' !in a
    ensures DataRun(matches, fs, events, a + "\n" + b) ==
      Then(LineRun(matches, fs, events, a), DataRun(matches, fs, events, b))
  {
    var s := a + "\n" + b;
    SplitAfterFreePrefix(a, '\n', b);
    assert s == a + ['\n'] + b;
    var rest := Split(b, "\n");
    assert Split(s, "\n") == [a] + rest;
    SplitIsSingleIffAbsent(s, "\n");
    assert Contains(s, "\n");
    assert ([a] + rest)[1..] == rest;
    assert PiecesRun(matches, fs, events, [a] + rest) ==
      Then(LineRun(matches, fs, events, a), PiecesRun(matches, fs, events, rest));
    if !Contains(b, "\n") {
      SplitIsSingleIffAbsent(b, "\n");
      FirstPiece(b, "\n");
      var r := LineRun(matches, fs, events, b);
      assert rest == [b];
      assert r.out + [] == r.out;
      assert PiecesRun(matches, fs, events, rest) == r;
    }
  }
}
