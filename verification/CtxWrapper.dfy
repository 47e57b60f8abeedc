/**
 Set-up: which input streams are decoded, which worker object each of them is
 routed to, and which output stream the object writes. What FFmpeg answers is
 an input of the model; a worker object has an identity, as two input streams
 can share one.
 */
module CtxWrapper {
  import opened Wrappers

  datatype Media = VideoMedia | AudioMedia | OtherMedia

  /** `decoderFound`: a decoder is found and set up for the stream; `decoderOpens`: opening it would succeed. */
  datatype InStream = InStream(id: int, media: Media, startTime: int, decoderFound: bool, decoderOpens: bool)

  datatype PidPair = PidPair(first: int, second: int)

  /** The input context: a null pointer, allocated only, or opened. */
  datatype Context = NoContext | Allocated | Opened

  /** What opening the input comes to; `found` are its streams. */
  datatype InputEnv = InputEnv(opens: bool, infoFound: bool, found: seq<InStream>)

  /** What opening one output comes to: its context, the encoders found and opened by input stream, its header. */
  datatype OutputEnv = OutputEnv(allocates: bool, encoderFound: set<nat>, encoderOpens: set<nat>, headerWritten: bool)

  /** The two objects made for a pair share a serial number. */
  datatype ObjectId = ObjectId(serial: nat, media: Media)

  /** The tool an object was given last (input stream, output index) and its start time. */
  datatype Worker = Worker(input: Option<nat>, output: nat, startTime: int)

  /** Stream index to object; a pointer that was reset is `None` and stays in the map. */
  type PidMap = map<nat, Option<ObjectId>>

  const TASK_DOWN: int := 0
  const ALLOC_FAIL: int := 1
  const INPUT_STREAM_FAIL: int := 2
  const OUTPUT_STREAM_FAIL: int := 3

  // ---------- selection ----------

  predicate Names(pair: PidPair, s: InStream) { s.id == pair.first || s.id == pair.second }

  /** The input streams before `n` that the pair names, in order: its output streams. */
  function Selected(streams: seq<InStream>, pair: PidPair, n: nat): (picked: seq<nat>)
    requires n <= |streams|
  {
    if n == 0 then []
    else Selected(streams, pair, n - 1) + (if Names(pair, streams[n - 1]) then [n - 1] else [])
  }

  /** The place of input stream `k` among the streams its pair selects. */
  function Rank(streams: seq<InStream>, pair: PidPair, k: nat): (r: nat)
    requires k <= |streams|
  {
    |Selected(streams, pair, k)|
  }

  /** The list of output streams and the ranks are inverse to each other. */
  lemma {:induction false} RankIsPosition(streams: seq<InStream>, pair: PidPair, k: nat, n: nat)
    requires k < n <= |streams| && Names(pair, streams[k])
    ensures Rank(streams, pair, k) < |Selected(streams, pair, n)|
    ensures Selected(streams, pair, n)[Rank(streams, pair, k)] == k
    decreases n
  {
    if k < n - 1 {
      RankIsPosition(streams, pair, k, n - 1);
    }
  }

  lemma {:induction false} PositionIsRank(streams: seq<InStream>, pair: PidPair, r: nat, n: nat)
    requires n <= |streams| && r < |Selected(streams, pair, n)|
    ensures var k := Selected(streams, pair, n)[r];
            k < n && Names(pair, streams[k]) && Rank(streams, pair, k) == r
    decreases n
  {
    if r < |Selected(streams, pair, n - 1)| {
      PositionIsRank(streams, pair, r, n - 1);
    }
  }

  /** The last stream of the given kind that the pair selects before `n`. */
  function LastOf(streams: seq<InStream>, pair: PidPair, media: Media, n: nat): (k: Option<nat>)
    requires n <= |streams|
    ensures k.Some? ==> k.value < n && Names(pair, streams[k.value]) && streams[k.value].media == media
    ensures k.Some? ==> forall j: nat | k.value < j < n :: !(Names(pair, streams[j]) && streams[j].media == media)
    ensures k.None? ==> forall j: nat | j < n :: !(Names(pair, streams[j]) && streams[j].media == media)
  {
    if n == 0 then None
    else if Names(pair, streams[n - 1]) && streams[n - 1].media == media then Some(n - 1)
    else LastOf(streams, pair, media, n - 1)
  }

  /** The start time both objects of a pair are given: that of its last video stream, or 0. */
  function VideoStart(streams: seq<InStream>, pair: PidPair, n: nat): (t: int)
    requires n <= |streams|
  {
    match LastOf(streams, pair, VideoMedia, n) case None => 0 case Some(k) => streams[k].startTime
  }

  /** The object of one kind after the streams before `n` have been gone through. */
  function WorkerOf(streams: seq<InStream>, pair: PidPair, media: Media, n: nat, start: int): (w: Worker)
    requires n <= |streams|
  {
    match LastOf(streams, pair, media, n)
    case None => Worker(None, 0, start)
    case Some(k) => Worker(Some(k), Rank(streams, pair, k), start)
  }

  // ---------- one output ----------

  /** Stream `k` does not end the opening of the pair's output. */
  predicate Passes(streams: seq<InStream>, pair: PidPair, env: OutputEnv, k: nat)
    requires k < |streams|
  {
    Names(pair, streams[k]) ==> streams[k].media != OtherMedia && k in env.encoderFound && k in env.encoderOpens
  }

  ghost predicate AllPass(streams: seq<InStream>, pair: PidPair, env: OutputEnv)
  {
    forall k: nat | k < |streams| :: Passes(streams, pair, env, k)
  }

  /** The pair selects a video stream; only then its video object is given an output to set the time from. */
  predicate HasVideo(streams: seq<InStream>, pair: PidPair)
  {
    LastOf(streams, pair, VideoMedia, |streams|).Some?
  }

  /**
   How opening the output of a pair ends. A context that cannot be allocated
   is cleaned up all the same; and when no stream fails, the video object's
   time is set whether or not it has a stream.
   */
  ghost function OutputOutcome(streams: seq<InStream>, pair: PidPair, env: OutputEnv): (o: Outcome)
  {
    if !env.allocates then Undefined
    else if !AllPass(streams, pair, env) then Returned(-1)
    else if !HasVideo(streams, pair) then Undefined
    else if env.headerWritten then Returned(0) else Returned(-1)
  }

  ghost predicate Opens(streams: seq<InStream>, pair: PidPair, env: OutputEnv)
  {
    OutputOutcome(streams, pair, env) == Returned(0)
  }

  /**
   How many streams from `i` on had their turn at the map. A stream whose
   encoder does not open has had it, one of another kind or without an
   encoder has not.
   */
  function Reached(streams: seq<InStream>, pair: PidPair, env: OutputEnv, i: nat): (n: nat)
    requires i <= |streams|
    ensures i <= n <= |streams|
    ensures (forall k: nat | i <= k < |streams| :: Passes(streams, pair, env, k)) ==> n == |streams|
    decreases |streams| - i
  {
    if i == |streams| then i
    else if Passes(streams, pair, env, i) then Reached(streams, pair, env, i + 1)
    else if streams[i].media == OtherMedia || i !in env.encoderFound then i
    else i + 1
  }

  /** `insert` for every stream before `n` that the pair names: a key that exists is kept. */
  function AddEntries(m: PidMap, streams: seq<InStream>, pair: PidPair, n: nat, serial: nat): (m': PidMap)
    requires n <= |streams|
  {
    if n == 0 then m
    else
      var before := AddEntries(m, streams, pair, n - 1, serial);
      if Names(pair, streams[n - 1]) && n - 1 !in before
      then before[n - 1 := Some(ObjectId(serial, streams[n - 1].media))] else before
  }

  lemma {:induction false} AddedAre(m: PidMap, streams: seq<InStream>, pair: PidPair, n: nat, serial: nat, k: nat)
    requires n <= |streams|
    ensures var m' := AddEntries(m, streams, pair, n, serial);
            && (k in m' <==> k in m || (k < n && Names(pair, streams[k])))
            && (k in m ==> m'[k] == m[k])
            && (k in m' && k !in m ==> m'[k] == Some(ObjectId(serial, streams[k].media)))
  {
    if n > 0 {
      AddedAre(m, streams, pair, n - 1, serial, k);
    }
  }

  /** What one opened output leaves of its two objects. */
  ghost predicate Equipped(objects: map<ObjectId, Worker>, streams: seq<InStream>, pair: PidPair, serial: nat)
  {
    var start := VideoStart(streams, pair, |streams|);
    forall media | media == VideoMedia || media == AudioMedia ::
      && ObjectId(serial, media) in objects
      && objects[ObjectId(serial, media)] == WorkerOf(streams, pair, media, |streams|, start)
  }

  /** Objects made before serial number `n` are what they were. */
  ghost predicate Untouched(objects: map<ObjectId, Worker>, objects': map<ObjectId, Worker>, n: nat)
  {
    forall id | id in objects && id.serial < n :: id in objects' && objects'[id] == objects[id]
  }

  /** One turn of the loop over the input streams. */
  lemma OutputTurn(m: PidMap, streams: seq<InStream>, pair: PidPair, env: OutputEnv, i: nat, serial: nat)
    requires i < |streams|
    ensures !Names(pair, streams[i]) ==>
              && Rank(streams, pair, i + 1) == Rank(streams, pair, i)
              && AddEntries(m, streams, pair, i + 1, serial) == AddEntries(m, streams, pair, i, serial)
    ensures Names(pair, streams[i]) ==>
              && Rank(streams, pair, i + 1) == Rank(streams, pair, i) + 1
              && AddEntries(m, streams, pair, i + 1, serial)
                 == var before := AddEntries(m, streams, pair, i, serial);
                    if i in before then before else before[i := Some(ObjectId(serial, streams[i].media))]
    ensures VideoStart(streams, pair, i + 1)
            == if Names(pair, streams[i]) && streams[i].media == VideoMedia then streams[i].startTime
               else VideoStart(streams, pair, i)
    ensures WorkerOf(streams, pair, VideoMedia, i + 1, 0)
            == if Names(pair, streams[i]) && streams[i].media == VideoMedia
               then Worker(Some(i), Rank(streams, pair, i), 0)
               else WorkerOf(streams, pair, VideoMedia, i, 0)
    ensures WorkerOf(streams, pair, AudioMedia, i + 1, 0)
            == if Names(pair, streams[i]) && streams[i].media == AudioMedia
               then Worker(Some(i), Rank(streams, pair, i), 0)
               else WorkerOf(streams, pair, AudioMedia, i, 0)
    ensures Reached(streams, pair, env, i)
            == if Passes(streams, pair, env, i) then Reached(streams, pair, env, i + 1)
               else if streams[i].media == OtherMedia || i !in env.encoderFound then i else i + 1
    ensures Passes(streams, pair, env, i) <==>
              (Names(pair, streams[i]) ==>
                 streams[i].media != OtherMedia && i in env.encoderFound && i in env.encoderOpens)
    ensures env.allocates && !Passes(streams, pair, env, i) ==> OutputOutcome(streams, pair, env) == Returned(-1)
  {
  }

  /** The objects after the last turn, once the start time is set. */
  lemma Finished(objects: map<ObjectId, Worker>, streams: seq<InStream>, pair: PidPair, serial: nat)
    ensures var n, start := |streams|, VideoStart(streams, pair, |streams|);
            var video := WorkerOf(streams, pair, VideoMedia, n, 0).(startTime := start);
            var audio := WorkerOf(streams, pair, AudioMedia, n, 0).(startTime := start);
            var objects' := objects[ObjectId(serial, VideoMedia) := video][ObjectId(serial, AudioMedia) := audio];
            Equipped(objects', streams, pair, serial) && Untouched(objects, objects', serial)
  {
  }

  lemma BeforeFirstTurn(m: PidMap, streams: seq<InStream>, pair: PidPair, env: OutputEnv, serial: nat)
    ensures Rank(streams, pair, 0) == 0 && VideoStart(streams, pair, 0) == 0
    ensures forall media :: WorkerOf(streams, pair, media, 0, 0) == Worker(None, 0, 0)
    ensures AddEntries(m, streams, pair, 0, serial) == m
    ensures Reached(streams, pair, env, |streams|) == |streams|
    ensures forall objects, n: nat :: Untouched(objects, objects, n)
    ensures !env.allocates ==> OutputOutcome(streams, pair, env) == Undefined
    ensures env.allocates && (forall k: nat | k < |streams| :: Passes(streams, pair, env, k)) ==>
              OutputOutcome(streams, pair, env) ==
                if WorkerOf(streams, pair, VideoMedia, |streams|, 0).input.None? then Undefined
                else if env.headerWritten then Returned(0) else Returned(-1)
  {
  }

  // ---------- all outputs ----------

  function PidsOf(pairs: seq<PidPair>): (pids: seq<int>)
  {
    if pairs == [] then [] else PidsOf(pairs[..|pairs| - 1]) + [pairs[|pairs| - 1].first, pairs[|pairs| - 1].second]
  }

  /** The first of the first `n` pairs that names the stream. */
  function FirstNaming(pairs: seq<PidPair>, s: InStream, n: nat): (p: Option<nat>)
    requires n <= |pairs|
    ensures p.Some? ==> p.value < n && Names(pairs[p.value], s) && forall q: nat | q < p.value :: !Names(pairs[q], s)
    ensures p.None? ==> forall q: nat | q < n :: !Names(pairs[q], s)
  {
    if n == 0 then None
    else match FirstNaming(pairs, s, n - 1)
         case Some(p) => Some(p)
         case None => if Names(pairs[n - 1], s) then Some(n - 1) else None
  }

  /** A stream is in the flat list of PIDs exactly when some pair names it. */
  lemma {:induction false} InPids(pairs: seq<PidPair>, s: InStream)
    ensures s.id in PidsOf(pairs) <==> FirstNaming(pairs, s, |pairs|).Some?
  {
    if pairs != [] {
      var n := |pairs| - 1;
      InPids(pairs[..n], s);
      assert FirstNaming(pairs, s, |pairs|).Some? <==> exists q: nat :: q <= n && Names(pairs[q], s);
      assert FirstNaming(pairs[..n], s, n).Some? <==> exists q: nat :: q < n && Names(pairs[q], s) by {
        assert forall q: nat | q < n :: pairs[..n][q] == pairs[q];
      }
    }
  }

  /** A decoder is found for the stream, and opened if it is video or audio. */
  predicate Decodes(s: InStream) { s.decoderFound && (s.media == OtherMedia || s.decoderOpens) }

  /**
   An input that does not open leaves no context, and its streams are cleaned
   up all the same; a context that is open must not be opened again.
   */
  ghost function InputOutcome(context: Context, input: InputEnv, pairs: seq<PidPair>): (o: Outcome)
  {
    if context.Opened? || !input.opens then Undefined
    else if input.infoFound && NamedDecode(input.found, pairs) then Returned(0) else Returned(-1)
  }

  ghost predicate NamedDecode(found: seq<InStream>, pairs: seq<PidPair>)
  {
    forall k: nat | k < |found| && FirstNaming(pairs, found[k], |pairs|).Some? :: Decodes(found[k])
  }

  /** Decoders are opened for the named streams that are video or audio. */
  ghost predicate DecodersOpened(decoders: set<nat>, found: seq<InStream>, pairs: seq<PidPair>)
  {
    forall k: nat :: k in decoders <==>
      k < |found| && FirstNaming(pairs, found[k], |pairs|).Some? && found[k].media != OtherMedia
  }

  /** The first `n` outputs open. */
  ghost predicate AllOpen(streams: seq<InStream>, pairs: seq<PidPair>, envs: seq<OutputEnv>, n: nat)
    requires n <= |pairs| == |envs|
  {
    forall p: nat | p < n :: Opens(streams, pairs[p], envs[p])
  }

  function AfterPairs(m: PidMap, streams: seq<InStream>, pairs: seq<PidPair>, n: nat, serial: nat): (m': PidMap)
    requires n <= |pairs|
  {
    if n == 0 then m
    else AddEntries(AfterPairs(m, streams, pairs, n - 1, serial), streams, pairs[n - 1], |streams|, serial + n - 1)
  }

  /** The map holds what it held and, for the other streams, the object of the first pair that names each. */
  lemma {:induction false} FirstPairOwns(m: PidMap, streams: seq<InStream>, pairs: seq<PidPair>, n: nat, serial: nat,
                                         k: nat)
    requires n <= |pairs|
    ensures var m' := AfterPairs(m, streams, pairs, n, serial);
            && (k in m ==> k in m' && m'[k] == m[k])
            && (k !in m ==> (k in m' <==> k < |streams| && FirstNaming(pairs, streams[k], n).Some?))
            && (k !in m && k in m' ==>
                  m'[k] == Some(ObjectId(serial + FirstNaming(pairs, streams[k], n).value, streams[k].media)))
  {
    if n > 0 {
      FirstPairOwns(m, streams, pairs, n - 1, serial, k);
      AddedAre(AfterPairs(m, streams, pairs, n - 1, serial), streams, pairs[n - 1], |streams|, serial + n - 1, k);
    }
  }

  function OutputLists(streams: seq<InStream>, pairs: seq<PidPair>, n: nat): (lists: seq<seq<nat>>)
    requires n <= |pairs|
  {
    seq(n, p requires 0 <= p < n => Selected(streams, pairs[p], |streams|))
  }

  ghost predicate AllEquipped(objects: map<ObjectId, Worker>, streams: seq<InStream>, pairs: seq<PidPair>, n: nat,
                              serial: nat)
    requires n <= |pairs|
  {
    forall p: nat | p < n :: Equipped(objects, streams, pairs[p], serial + p)
  }

  /** What set-up changes. */
  datatype Setting = Setting(
    context: Context,
    decoders: set<nat>,
    pidObject: PidMap,
    outputs: seq<seq<nat>>,
    objects: map<ObjectId, Worker>)

  /** What opening an output leaves alone is what a refused input leaves alone. */
  ghost predicate SameOutputs(was: Setting, now: Setting)
  {
    now.pidObject == was.pidObject && now.outputs == was.outputs && now.objects == was.objects
  }

  /**
   Set-up from `was` to `now` with outcome `o`: all outputs open, or the
   input does not, or the outputs before some pair do and the pair's does not.
   */
  ghost predicate SetUp(was: Setting, now: Setting, serial: nat, o: Outcome,
                        context: Context, input: InputEnv, pairs: seq<PidPair>, envs: seq<OutputEnv>)
    requires |pairs| == |envs|
  {
    && Untouched(was.objects, now.objects, serial)
    && (InputOutcome(context, input, pairs) == Undefined ==> o == Undefined && SameOutputs(was, now))
    && (InputOutcome(context, input, pairs) == Returned(-1) <==> o == Returned(INPUT_STREAM_FAIL))
    && (o == Returned(INPUT_STREAM_FAIL) ==> SameOutputs(was, now) && now.context == NoContext)
    && (InputOutcome(context, input, pairs) == Returned(0) ==>
          DecodersOpened(now.decoders, input.found, pairs) && now.context == Opened)
    && (o == Returned(TASK_DOWN) <==>
          InputOutcome(context, input, pairs) == Returned(0) && AllOpen(input.found, pairs, envs, |pairs|))
    && (o == Returned(TASK_DOWN) ==>
          && now.pidObject == AfterPairs(was.pidObject, input.found, pairs, |pairs|, serial)
          && now.outputs == was.outputs + OutputLists(input.found, pairs, |pairs|)
          && AllEquipped(now.objects, input.found, pairs, |pairs|, serial))
    && (InputOutcome(context, input, pairs) == Returned(0) && o != Returned(TASK_DOWN) ==>
          exists p: nat :: FailedAt(p, was, now, serial, o, input.found, pairs, envs))
  }

  /** The outputs before pair `p` open and its own ends with another outcome, which decides that of set-up. */
  ghost predicate FailedAt(p: nat, was: Setting, now: Setting, serial: nat, o: Outcome,
                           found: seq<InStream>, pairs: seq<PidPair>, envs: seq<OutputEnv>)
    requires |pairs| == |envs|
  {
    && p < |pairs|
    && AllOpen(found, pairs, envs, p)
    && !Opens(found, pairs[p], envs[p])
    && o == (if OutputOutcome(found, pairs[p], envs[p]) == Undefined then Undefined else Returned(OUTPUT_STREAM_FAIL))
    && now.pidObject == AddEntries(AfterPairs(was.pidObject, found, pairs, p, serial), found, pairs[p],
                                   if envs[p].allocates then Reached(found, pairs[p], envs[p], 0) else 0, serial + p)
    && now.outputs == was.outputs + OutputLists(found, pairs, p)
    && AllEquipped(now.objects, found, pairs, p, serial)
  }

  lemma BeforeFirstPair(mid: Setting, serial: nat, found: seq<InStream>, pairs: seq<PidPair>, envs: seq<OutputEnv>)
    requires |pairs| == |envs|
    ensures Halfway(mid, mid, serial, found, pairs, envs, 0)
  {
  }

  /** Opening the input changes nothing that the outputs are compared with. */
  lemma SetUpAfterInput(was: Setting, mid: Setting, now: Setting, serial: nat, o: Outcome,
                        context: Context, input: InputEnv, pairs: seq<PidPair>, envs: seq<OutputEnv>)
    requires |pairs| == |envs| && SameOutputs(was, mid)
    requires SetUp(mid, now, serial, o, context, input, pairs, envs)
    ensures SetUp(was, now, serial, o, context, input, pairs, envs)
  {
    if InputOutcome(context, input, pairs) == Returned(0) && o != Returned(TASK_DOWN) {
      var p: nat :| FailedAt(p, mid, now, serial, o, input.found, pairs, envs);
      assert FailedAt(p, was, now, serial, o, input.found, pairs, envs);
    }
  }

  /** The first `n` pairs have been gone through with success. */
  ghost predicate Halfway(was: Setting, now: Setting, serial: nat, found: seq<InStream>, pairs: seq<PidPair>,
                          envs: seq<OutputEnv>, n: nat)
    requires n <= |pairs| == |envs|
  {
    && AllOpen(found, pairs, envs, n)
    && now.pidObject == AfterPairs(was.pidObject, found, pairs, n, serial)
    && now.outputs == was.outputs + OutputLists(found, pairs, n)
    && AllEquipped(now.objects, found, pairs, n, serial)
    && now.decoders == was.decoders && now.context == was.context
    && Untouched(was.objects, now.objects, serial)
  }

  /** What opening the output of one pair does. */
  ghost predicate OneOutput(was: Setting, now: Setting, serial: nat, streams: seq<InStream>, pair: PidPair,
                            env: OutputEnv, o: Outcome)
  {
    && o == OutputOutcome(streams, pair, env)
    && now.decoders == was.decoders && now.context == was.context
    && now.pidObject == AddEntries(was.pidObject, streams, pair,
                                   if env.allocates then Reached(streams, pair, env, 0) else 0, serial)
    && now.outputs == was.outputs + (if o == Returned(0) then [Selected(streams, pair, |streams|)] else [])
    && Untouched(was.objects, now.objects, serial)
    && (o == Returned(0) ==> Equipped(now.objects, streams, pair, serial))
  }

  /** One turn of the loop over the pairs. */
  lemma PairTurn(was: Setting, mid: Setting, now: Setting, serial: nat, found: seq<InStream>, pairs: seq<PidPair>,
                 envs: seq<OutputEnv>, p: nat, o: Outcome)
    requires p < |pairs| == |envs|
    requires Halfway(was, mid, serial, found, pairs, envs, p)
    requires OneOutput(mid, now, serial + p, found, pairs[p], envs[p], o)
    ensures o == Undefined || o == Returned(0) || o == Returned(-1)
    ensures now.decoders == was.decoders && now.context == was.context
    ensures o == Returned(0) ==> Halfway(was, now, serial, found, pairs, envs, p + 1)
    ensures o != Returned(0) ==> Untouched(was.objects, now.objects, serial)
    ensures o != Returned(0) ==>
              var end := if o.Undefined? then o else Returned(OUTPUT_STREAM_FAIL);
              FailedAt(p, was, now, serial, end, found, pairs, envs)
  {
    assert OutputLists(found, pairs, p + 1) == OutputLists(found, pairs, p) + [Selected(found, pairs[p], |found|)];
    assert o == Returned(0) ==> Reached(found, pairs[p], envs[p], 0) == |found|;
    hide Reached, AddEntries, Selected, OutputOutcome, Equipped;
    if o == Returned(0) {
      forall q: nat | q < p + 1 ensures Equipped(now.objects, found, pairs[q], serial + q) {
        assert q < p ==> Equipped(mid.objects, found, pairs[q], serial + q);
      }
    }
  }

  lemma InputFailed(was: Setting, now: Setting, serial: nat, o: Outcome, context: Context, input: InputEnv,
                    pairs: seq<PidPair>, envs: seq<OutputEnv>)
    requires |pairs| == |envs| && SameOutputs(was, now)
    requires InputOutcome(context, input, pairs) != Returned(0)
    requires InputOutcome(context, input, pairs) == Returned(-1) ==> now.context == NoContext
    requires o == if InputOutcome(context, input, pairs) == Undefined then Undefined else Returned(INPUT_STREAM_FAIL)
    ensures SetUp(was, now, serial, o, context, input, pairs, envs)
  {
  }

  lemma OutputFailed(p: nat, was: Setting, now: Setting, serial: nat, o: Outcome, context: Context, input: InputEnv,
                     pairs: seq<PidPair>, envs: seq<OutputEnv>)
    requires |pairs| == |envs| && InputOutcome(context, input, pairs) == Returned(0)
    requires DecodersOpened(now.decoders, input.found, pairs) && now.context == Opened
    requires FailedAt(p, was, now, serial, o, input.found, pairs, envs) && Untouched(was.objects, now.objects, serial)
    ensures SetUp(was, now, serial, o, context, input, pairs, envs)
  {
  }

  lemma AllDone(was: Setting, now: Setting, serial: nat, context: Context, input: InputEnv, pairs: seq<PidPair>,
                envs: seq<OutputEnv>)
    requires |pairs| == |envs| && InputOutcome(context, input, pairs) == Returned(0)
    requires DecodersOpened(now.decoders, input.found, pairs) && now.context == Opened
    requires Halfway(was, now, serial, input.found, pairs, envs, |pairs|)
    ensures SetUp(was, now, serial, Returned(TASK_DOWN), context, input, pairs, envs)
  {
  }

  class CtxWrapper {
    var context: Context
    var streams: seq<InStream>
    var decoders: set<nat>
    var objects: map<ObjectId, Worker>
    var nextSerial: nat
    var pidObject: PidMap
    /** One list of input streams for each output that was opened. */
    var outputs: seq<seq<nat>>

    ghost function Now(): Setting reads this { Setting(context, decoders, pidObject, outputs, objects) }

    constructor ()
      ensures context == NoContext && pidObject == map[] && outputs == [] && objects == map[] && nextSerial == 0
    {
      context := NoContext;
      streams, decoders, objects, nextSerial, pidObject, outputs := [], {}, map[], 0, map[], [];
    }

    /** Frees the decoders and closes the input; it follows the context without asking. */
    method IfmtClean() returns (o: Outcome)
      modifies this`context, this`streams, this`decoders
      ensures o == if old(context).NoContext? then Undefined else Returned(0)
      ensures context == NoContext
      ensures o == Returned(0) ==> streams == [] && decoders == {}
    {
      if context.NoContext? {
        return Undefined;
      }
      context, streams, decoders := NoContext, [], {};
      return Returned(0);
    }

    /** Cleans up the input and then frees the outputs. */
    method Cleanup() returns (o: Outcome)
      modifies this`context, this`streams, this`decoders
      ensures o == if old(context).NoContext? then Undefined else Returned(0)
      ensures context == NoContext
    {
      o := IfmtClean();
    }

    /**
     The two calls with which the transcoder's clean-up releases the input: the
     first one closes the context, if there is one, and the second one follows
     it all the same.
     */
    method ReleaseTwice() returns (o: Outcome)
      modifies this`context, this`streams, this`decoders
      ensures o == Undefined && context == NoContext
    {
      o := IfmtClean();
      if o != Undefined {
        o := Cleanup();
      }
    }

    /**
     Sets up a decoder for every stream that is in the list of PIDs and opens
     the video and audio ones; the first failure ends it. Cleaning up after a
     failure follows the context, which is null if the input did not open.
     */
    method IfmtInital(input: InputEnv, pids: seq<int>) returns (o: Outcome)
      modifies this`context, this`streams, this`decoders
      ensures o == Undefined <==> old(context).Opened? || !input.opens
      ensures o == Returned(0) || o == Returned(-1) || o == Undefined
      ensures o == Returned(0) <==>
                !old(context).Opened? && input.opens && input.infoFound
                && forall k: nat | k < |input.found| && input.found[k].id in pids :: Decodes(input.found[k])
      ensures o == Returned(0) ==> streams == input.found && context == Opened
      ensures o == Returned(0) ==>
                forall k: nat :: k in decoders <==>
                  k < |input.found| && input.found[k].id in pids && input.found[k].media != OtherMedia
      ensures o == Returned(-1) ==> streams == [] && decoders == {} && context == NoContext
    {
      if context.Opened? {
        return Undefined;
      }
      if !input.opens {
        context := NoContext;
        o := IfmtClean();
        return;
      }
      var found := input.found;
      context, streams, decoders := Opened, found, {};
      if !input.infoFound {
        o := IfmtClean();
        return Returned(-1);
      }
      for i := 0 to |found|
        invariant streams == found && context == Opened
        invariant forall k: nat | k < i && found[k].id in pids :: Decodes(found[k])
        invariant forall k: nat :: k in decoders <==> k < i && found[k].id in pids && found[k].media != OtherMedia
      {
        if found[i].id in pids {
          if !found[i].decoderFound || (found[i].media != OtherMedia && !found[i].decoderOpens) {
            assert !Decodes(found[i]);
            o := IfmtClean();
            return Returned(-1);
          }
          if found[i].media != OtherMedia {
            decoders := decoders + {i};
          }
        }
      }
      return Returned(0);
    }

    /**
     One output for one pair. An entry is inserted before the encoder is
     opened and is not taken back on failure.
     */
    method OfmtInital(pair: PidPair, env: OutputEnv) returns (o: Outcome)
      modifies this`objects, this`nextSerial, this`pidObject, this`outputs
      ensures nextSerial == old(nextSerial) + 1
      ensures OneOutput(old(Now()), Now(), old(nextSerial), streams, pair, env, o)
    {
      hide Names, Passes, Rank, Selected, LastOf, VideoStart, WorkerOf, OutputOutcome, Reached, AddEntries, Equipped,
        Untouched;
      BeforeFirstTurn(pidObject, streams, pair, env, nextSerial);
      var serial := nextSerial;
      nextSerial := nextSerial + 1;
      if !env.allocates {
        return Undefined;
      }
      var video, audio := Worker(None, 0, 0), Worker(None, 0, 0);
      var videoStart, streamCount := 0, 0;
      for i := 0 to |streams|
        invariant streamCount == Rank(streams, pair, i)
        invariant video == WorkerOf(streams, pair, VideoMedia, i, 0)
        invariant audio == WorkerOf(streams, pair, AudioMedia, i, 0)
        invariant videoStart == VideoStart(streams, pair, i)
        invariant pidObject == AddEntries(old(pidObject), streams, pair, i, serial)
        invariant Reached(streams, pair, env, i) == Reached(streams, pair, env, 0)
        invariant forall k: nat | k < i :: Passes(streams, pair, env, k)
        invariant nextSerial == serial + 1 && outputs == old(outputs) && objects == old(objects)
      {
        OutputTurn(old(pidObject), streams, pair, env, i, serial);
        if Names(pair, streams[i]) {
          if streams[i].media == OtherMedia || i !in env.encoderFound {
            return Returned(-1);
          }
          if streams[i].media == VideoMedia {
            video := Worker(Some(i), streamCount, 0);
            videoStart := streams[i].startTime;
          } else {
            audio := Worker(Some(i), streamCount, 0);
          }
          if i !in pidObject {
            pidObject := pidObject[i := Some(ObjectId(serial, streams[i].media))];
          }
          if i !in env.encoderOpens {
            return Returned(-1);
          }
          streamCount := streamCount + 1;
        }
      }
      if video.input.None? {
        return Undefined;
      }
      Finished(objects, streams, pair, serial);
      objects := objects[ObjectId(serial, VideoMedia) := video.(startTime := videoStart)];
      objects := objects[ObjectId(serial, AudioMedia) := audio.(startTime := videoStart)];
      if !env.headerWritten {
        return Returned(-1);
      }
      outputs := outputs + [Selected(streams, pair, |streams|)];
      return Returned(0);
    }

    /** Set-up from a named input; `envs[p]` is what opening the output of pair `p` comes to. */
    method SetConfig(input: InputEnv, pairs: seq<PidPair>, envs: seq<OutputEnv>) returns (o: Outcome)
      requires |pairs| == |envs|
      modifies this
      ensures SetUp(old(Now()), Now(), old(nextSerial), o, old(context), input, pairs, envs)
      ensures old(nextSerial) <= nextSerial <= old(nextSerial) + |pairs|
      ensures o == Returned(TASK_DOWN) ==> nextSerial == old(nextSerial) + |pairs|
      ensures o == Returned(TASK_DOWN) ==> streams == input.found
    {
      hide AllOpen, AfterPairs, OutputLists, AllEquipped, Untouched, OutputOutcome, SetUp, FailedAt, Halfway, OneOutput,
        PidsOf, FirstNaming, AddEntries, Reached, Decodes;
      var pids := PidsOf(pairs);
      forall s: InStream ensures s.id in pids <==> FirstNaming(pairs, s, |pairs|).Some? {
        InPids(pairs, s);
      }
      ghost var was, serial, first := Now(), nextSerial, context;
      var opening := IfmtInital(input, pids);
      if opening != Returned(0) {
        o := if opening.Undefined? then opening else Returned(INPUT_STREAM_FAIL);
        InputFailed(was, Now(), serial, o, first, input, pairs, envs);
        return;
      }
      ghost var mid := Now();
      BeforeFirstPair(mid, serial, input.found, pairs, envs);
      for p := 0 to |pairs|
        invariant streams == input.found && context == Opened && DecodersOpened(decoders, input.found, pairs)
        invariant nextSerial == serial + p
        invariant Halfway(mid, Now(), serial, input.found, pairs, envs, p)
      {
        ghost var before := Now();
        var output := OfmtInital(pairs[p], envs[p]);
        PairTurn(mid, before, Now(), serial, input.found, pairs, envs, p, output);
        if output != Returned(0) {
          o := if output.Undefined? then output else Returned(OUTPUT_STREAM_FAIL);
          OutputFailed(p, mid, Now(), serial, o, first, input, pairs, envs);
          SetUpAfterInput(was, mid, Now(), serial, o, first, input, pairs, envs);
          return;
        }
      }
      o := Returned(TASK_DOWN);
      AllDone(mid, Now(), serial, first, input, pairs, envs);
      SetUpAfterInput(was, mid, Now(), serial, o, first, input, pairs, envs);
    }

    /** Set-up from a buffer differs only in the context, which is allocated first whatever it was before. */
    method SetAvio(allocates: bool, input: InputEnv, pairs: seq<PidPair>, envs: seq<OutputEnv>) returns (o: Outcome)
      requires |pairs| == |envs|
      modifies this
      ensures !allocates ==>
                o == Returned(ALLOC_FAIL) && Now() == old(Now()).(context := NoContext) && streams == old(streams)
      ensures allocates ==> SetUp(old(Now()), Now(), old(nextSerial), o, Allocated, input, pairs, envs)
      ensures old(nextSerial) <= nextSerial <= old(nextSerial) + |pairs|
      ensures o == Returned(TASK_DOWN) ==> nextSerial == old(nextSerial) + |pairs|
      ensures o == Returned(TASK_DOWN) ==> streams == input.found
    {
      if !allocates {
        context := NoContext;
        return Returned(ALLOC_FAIL);
      }
      ghost var was, serial := Now(), nextSerial;
      context := Allocated;
      ghost var mid := Now();
      hide SetUp;
      o := SetConfig(input, pairs, envs);
      SetUpAfterInput(was, mid, Now(), serial, o, Allocated, input, pairs, envs);
    }
  }

  // ---------- how set-up ends ----------

  /** Pair `p` is the first whose output does not open, and it ends with `o`. */
  ghost predicate FirstEnding(found: seq<InStream>, pairs: seq<PidPair>, envs: seq<OutputEnv>, p: nat, o: Outcome)
    requires |pairs| == |envs|
  {
    p < |pairs| && AllOpen(found, pairs, envs, p) && OutputOutcome(found, pairs[p], envs[p]) == o
  }

  /** The outcome of set-up, in terms of what the input and the outputs come to. */
  lemma SetUpEndsExactly(was: Setting, now: Setting, serial: nat, o: Outcome, context: Context, input: InputEnv,
                         pairs: seq<PidPair>, envs: seq<OutputEnv>)
    requires |pairs| == |envs| && SetUp(was, now, serial, o, context, input, pairs, envs)
    ensures o == Undefined <==>
              context.Opened? || !input.opens || (InputOutcome(context, input, pairs) == Returned(0)
                               && exists p: nat :: FirstEnding(input.found, pairs, envs, p, Undefined))
    ensures o == Returned(OUTPUT_STREAM_FAIL) <==>
              InputOutcome(context, input, pairs) == Returned(0)
              && exists p: nat :: FirstEnding(input.found, pairs, envs, p, Returned(-1))
    ensures o != Undefined ==>
              o == Returned(TASK_DOWN) || o == Returned(INPUT_STREAM_FAIL) || o == Returned(OUTPUT_STREAM_FAIL)
  {
    if InputOutcome(context, input, pairs) == Returned(0) && o != Returned(TASK_DOWN) {
      var q: nat :| FailedAt(q, was, now, serial, o, input.found, pairs, envs);
      assert FirstEnding(input.found, pairs, envs, q, OutputOutcome(input.found, pairs[q], envs[q]));
      forall p: nat, e | FirstEnding(input.found, pairs, envs, p, e) && e != Returned(0)
        ensures p == q
      {
      }
    }
  }

  /** Some pair has the stream's id. */
  predicate Wanted(pairs: seq<PidPair>, s: InStream)
  {
    exists p | 0 <= p < |pairs| :: s.id == pairs[p].first || s.id == pairs[p].second
  }

  lemma WantedIsNamed(pairs: seq<PidPair>, s: InStream)
    ensures Wanted(pairs, s) <==> FirstNaming(pairs, s, |pairs|).Some?
  {
    assert forall p | 0 <= p < |pairs| :: Names(pairs[p], s) <==> s.id == pairs[p].first || s.id == pairs[p].second;
  }

  /** No decoder is found for the stream, or it is video or audio and its decoder does not open. */
  predicate CannotBeDecoded(s: InStream)
  {
    !s.decoderFound || ((s.media == VideoMedia || s.media == AudioMedia) && !s.decoderOpens)
  }

  /**
   The input part of set-up, stream by stream: it fails exactly if the streams
   are not found or one that some pair wants cannot be decoded; after success
   the decoders that were found and opened are those of the wanted video and
   audio streams.
   */
  lemma InputEndsExactly(was: Setting, now: Setting, serial: nat, o: Outcome, context: Context, input: InputEnv,
                         pairs: seq<PidPair>, envs: seq<OutputEnv>)
    requires |pairs| == |envs| && SetUp(was, now, serial, o, context, input, pairs, envs)
    ensures o == Returned(INPUT_STREAM_FAIL) <==>
              !context.Opened? && input.opens
              && (!input.infoFound || exists s | s in input.found :: Wanted(pairs, s) && CannotBeDecoded(s))
    ensures o == Returned(TASK_DOWN) ==>
              forall k: nat :: k in now.decoders <==>
                && k < |input.found| && Wanted(pairs, input.found[k]) && !input.found[k].media.OtherMedia?
                && input.found[k].decoderFound && input.found[k].decoderOpens
  {
    forall s: InStream
      ensures Wanted(pairs, s) <==> FirstNaming(pairs, s, |pairs|).Some?
    {
      WantedIsNamed(pairs, s);
    }
    assert forall s: InStream :: Decodes(s) <==> !CannotBeDecoded(s);
    hide Wanted, FirstNaming, Decodes, CannotBeDecoded, AfterPairs, AllEquipped, FailedAt, AllOpen, Untouched;
    if o == Returned(TASK_DOWN) {
      OpenedDecode(now.decoders, input, pairs);
    }
  }

  lemma OpenedDecode(decoders: set<nat>, input: InputEnv, pairs: seq<PidPair>)
    requires NamedDecode(input.found, pairs) && DecodersOpened(decoders, input.found, pairs)
    ensures forall k | k in decoders :: k < |input.found| && input.found[k].decoderFound && input.found[k].decoderOpens
  {
  }

  /** The pair has the stream's id, and the stream can be encoded and opened for the output. */
  predicate GoesThrough(pair: PidPair, env: OutputEnv, s: InStream, k: nat)
  {
    (s.id == pair.first || s.id == pair.second) ==>
      (s.media == VideoMedia || s.media == AudioMedia) && k in env.encoderFound && k in env.encoderOpens
  }

  /** How opening one output ends, stream by stream. */
  lemma OutputEndsExactly(streams: seq<InStream>, pair: PidPair, env: OutputEnv)
    ensures var all := forall k | 0 <= k < |streams| :: GoesThrough(pair, env, streams[k], k);
            var video := exists s | s in streams ::
                           s.media == VideoMedia && (s.id == pair.first || s.id == pair.second);
            && (OutputOutcome(streams, pair, env) == Returned(0) <==>
                  env.allocates && all && video && env.headerWritten)
            && (OutputOutcome(streams, pair, env) == Undefined <==> !env.allocates || (all && !video))
            && (OutputOutcome(streams, pair, env) == Returned(-1) <==>
                  env.allocates && (!all || (video && !env.headerWritten)))
  {
    assert forall k | 0 <= k < |streams| :: GoesThrough(pair, env, streams[k], k) <==> Passes(streams, pair, env, k);
    var last := LastOf(streams, pair, VideoMedia, |streams|);
    if last.Some? {
      assert streams[last.value] in streams;
    }
  }

  /**
   The entries that opening one output adds, also if it fails: those of the
   pair's streams that have an encoder and whose predecessors all went through.
   */
  lemma EntriesAddedExactly(m: PidMap, streams: seq<InStream>, pair: PidPair, env: OutputEnv, serial: nat, k: nat)
    ensures k in AddEntries(m, streams, pair, Reached(streams, pair, env, 0), serial) <==>
              k in m || (&& k < |streams| && (streams[k].id == pair.first || streams[k].id == pair.second)
                         && streams[k].media != OtherMedia && k in env.encoderFound
                         && forall j | 0 <= j < k :: GoesThrough(pair, env, streams[j], j))
  {
    AddedAre(m, streams, pair, Reached(streams, pair, env, 0), serial, k);
    ReachedExactly(streams, pair, env, 0, k);
  }

  lemma {:induction false} ReachedExactly(streams: seq<InStream>, pair: PidPair, env: OutputEnv, i: nat, k: nat)
    requires i <= |streams| && i <= k
    ensures k < Reached(streams, pair, env, i) && Names(pair, streams[k]) <==>
              && k < |streams| && Names(pair, streams[k]) && streams[k].media != OtherMedia && k in env.encoderFound
              && forall j | i <= j < k :: GoesThrough(pair, env, streams[j], j)
    decreases |streams| - i
  {
    if i < k && i < |streams| {
      ReachedExactly(streams, pair, env, i + 1, k);
    }
  }

  /**
   A pair whose video PID the input does not have: everything opens, and the
   code then sets the time of a video object that was never given an output.
   */
  lemma AudioOnlyIsUndefined(was: Setting, now: Setting, serial: nat, o: Outcome, context: Context)
    requires !context.Opened?
    requires SetUp(was, now, serial, o, context, InputEnv(true, true, [InStream(257, AudioMedia, 0, true, true)]),
                   [PidPair(256, 257)], [OutputEnv(true, {0}, {0}, true)])
    ensures o == Undefined
  {
    var input := InputEnv(true, true, [InStream(257, AudioMedia, 0, true, true)]);
    var pairs, envs := [PidPair(256, 257)], [OutputEnv(true, {0}, {0}, true)];
    SetUpEndsExactly(was, now, serial, o, context, input, pairs, envs);
    assert InputOutcome(context, input, pairs) == Returned(0);
    assert LastOf(input.found, pairs[0], VideoMedia, 1).None?;
    assert FirstEnding(input.found, pairs, envs, 0, Undefined);
  }

  // ---------- routing ----------

  /** No later stream of its kind is selected by the pair. */
  ghost predicate IsLast(streams: seq<InStream>, pair: PidPair, k: nat)
    requires k < |streams|
  {
    forall j: nat | k < j < |streams| && streams[j].media == streams[k].media :: !Names(pair, streams[j])
  }

  /** The last of the pair's video streams, whose start time both objects get. */
  ghost predicate IsLastVideo(streams: seq<InStream>, pair: PidPair, v: nat)
    requires v < |streams|
  {
    streams[v].media == VideoMedia && Names(pair, streams[v]) && IsLast(streams, pair, v)
  }

  lemma LastVideoStarts(streams: seq<InStream>, pair: PidPair, env: OutputEnv)
    requires Opens(streams, pair, env)
    ensures exists v: nat :: v < |streams| && IsLastVideo(streams, pair, v)
    ensures forall v: nat | v < |streams| && IsLastVideo(streams, pair, v) ::
              VideoStart(streams, pair, |streams|) == streams[v].startTime
  {
    var last := LastOf(streams, pair, VideoMedia, |streams|);
    assert IsLastVideo(streams, pair, last.value);
  }

  /** The pair selects at most one stream of the kind. */
  ghost predicate AtMostOne(streams: seq<InStream>, pair: PidPair, media: Media)
  {
    forall j: nat, k: nat | j < |streams| && k < |streams| && Names(pair, streams[j]) && Names(pair, streams[k])
                            && streams[j].media == media && streams[k].media == media :: j == k
  }

  /** What success means, part by part. */
  lemma Succeeded(was: Setting, now: Setting, serial: nat, context: Context, input: InputEnv, pairs: seq<PidPair>,
                  envs: seq<OutputEnv>)
    requires |pairs| == |envs| && SetUp(was, now, serial, Returned(TASK_DOWN), context, input, pairs, envs)
    ensures now.pidObject == AfterPairs(was.pidObject, input.found, pairs, |pairs|, serial)
    ensures |now.outputs| == |was.outputs| + |pairs|
    ensures forall p: nat | p < |pairs| ::
              && now.outputs[|was.outputs| + p] == Selected(input.found, pairs[p], |input.found|)
              && Opens(input.found, pairs[p], envs[p])
              && Equipped(now.objects, input.found, pairs[p], serial + p)
    ensures DecodersOpened(now.decoders, input.found, pairs)
  {
    hide AfterPairs, Selected, Opens, Equipped, DecodersOpened, InputOutcome, Untouched;
  }

  /** A stream that an opened output selects is video or audio. */
  lemma SelectedPasses(streams: seq<InStream>, pair: PidPair, env: OutputEnv, k: nat)
    requires Opens(streams, pair, env) && k < |streams| && Names(pair, streams[k])
    ensures streams[k].media != OtherMedia
  {
    assert Passes(streams, pair, env, k);
  }

  /**
   After a set-up that succeeds on an empty map, the streams that are routed
   are those some pair names. Such a stream goes to the object of its kind of
   the first pair that names it; the object serves this very stream, under the
   stream's rank among the pair's selected streams, exactly when the stream is
   the pair's last of its kind.
   */
  lemma StreamRouting(was: Setting, now: Setting, serial: nat, context: Context, input: InputEnv,
                      pairs: seq<PidPair>, envs: seq<OutputEnv>, k: nat)
    requires |pairs| == |envs| && was.pidObject == map[]
    requires SetUp(was, now, serial, Returned(TASK_DOWN), context, input, pairs, envs)
    ensures k in now.pidObject <==> k < |input.found| && Wanted(pairs, input.found[k])
    ensures k in now.pidObject ==>
              var p := FirstNaming(pairs, input.found[k], |pairs|).value;
              var id := ObjectId(serial + p, input.found[k].media);
              && now.pidObject[k] == Some(id) && id in now.objects
              && (forall v: nat | v < |input.found| && IsLastVideo(input.found, pairs[p], v) ::
                    now.objects[id].startTime == input.found[v].startTime)
              && (exists v: nat :: v < |input.found| && IsLastVideo(input.found, pairs[p], v))
              && (now.objects[id].input == Some(k) <==> IsLast(input.found, pairs[p], k))
              && (now.objects[id].input == Some(k) ==>
                    && now.objects[id].output == Rank(input.found, pairs[p], k)
                    && |now.outputs| == |was.outputs| + |pairs|
                    && now.objects[id].output < |now.outputs[|was.outputs| + p]|
                    && now.outputs[|was.outputs| + p][now.objects[id].output] == k)
  {
    hide SetUp, AfterPairs, Selected, Opens, DecodersOpened, Rank, LastOf, FirstNaming;
    Succeeded(was, now, serial, context, input, pairs, envs);
    FirstPairOwns(was.pidObject, input.found, pairs, |pairs|, serial, k);
    if k < |input.found| {
      WantedIsNamed(pairs, input.found[k]);
    }
    if k in now.pidObject {
      var p := FirstNaming(pairs, input.found[k], |pairs|).value;
      LastVideoStarts(input.found, pairs[p], envs[p]);
      SelectedPasses(input.found, pairs[p], envs[p], k);
      RankIsPosition(input.found, pairs[p], k, |input.found|);
    }
  }

  /** With at most one stream of each kind in a pair, every routed stream has an object that serves it. */
  lemma EveryStreamIsServed(was: Setting, now: Setting, serial: nat, context: Context, input: InputEnv,
                            pairs: seq<PidPair>, envs: seq<OutputEnv>, k: nat)
    requires |pairs| == |envs| && was.pidObject == map[]
    requires SetUp(was, now, serial, Returned(TASK_DOWN), context, input, pairs, envs)
    requires forall p: nat | p < |pairs| ::
               AtMostOne(input.found, pairs[p], VideoMedia) && AtMostOne(input.found, pairs[p], AudioMedia)
    requires k in now.pidObject
    ensures k < |input.found| && FirstNaming(pairs, input.found[k], |pairs|).Some? && k in now.decoders
    ensures now.pidObject[k].Some? && now.pidObject[k].value in now.objects
    ensures var p := FirstNaming(pairs, input.found[k], |pairs|).value;
            now.objects[now.pidObject[k].value]
            == Worker(Some(k), Rank(input.found, pairs[p], k), VideoStart(input.found, pairs[p], |input.found|))
  {
    hide SetUp, AfterPairs, Selected, Opens, Rank, LastOf, FirstNaming;
    Succeeded(was, now, serial, context, input, pairs, envs);
    StreamRouting(was, now, serial, context, input, pairs, envs, k);
    var p := FirstNaming(pairs, input.found[k], |pairs|).value;
    SelectedPasses(input.found, pairs[p], envs[p], k);
    assert AtMostOne(input.found, pairs[p], VideoMedia) && AtMostOne(input.found, pairs[p], AudioMedia);
  }

  /** Two routed streams share an object exactly when they are of one kind and the same pair names both first. */
  lemma SharingIsWithinAPair(was: Setting, now: Setting, serial: nat, context: Context, input: InputEnv,
                             pairs: seq<PidPair>, envs: seq<OutputEnv>, j: nat, k: nat)
    requires |pairs| == |envs| && was.pidObject == map[]
    requires SetUp(was, now, serial, Returned(TASK_DOWN), context, input, pairs, envs)
    requires j in now.pidObject && k in now.pidObject
    ensures j < |input.found| && k < |input.found|
    ensures now.pidObject[j] == now.pidObject[k] <==>
              input.found[j].media == input.found[k].media
              && FirstNaming(pairs, input.found[j], |pairs|) == FirstNaming(pairs, input.found[k], |pairs|)
  {
    hide *;
    Succeeded(was, now, serial, context, input, pairs, envs);
    FirstPairOwns(was.pidObject, input.found, pairs, |pairs|, serial, j);
    FirstPairOwns(was.pidObject, input.found, pairs, |pairs|, serial, k);
  }

  /**
   An entry whose pointer was reset is not replaced: whatever a later set-up
   returns, the stream it stands for stays without an object.
   */
  lemma ResetEntriesStay(was: Setting, now: Setting, serial: nat, o: Outcome,
                         context: Context, input: InputEnv, pairs: seq<PidPair>, envs: seq<OutputEnv>, k: nat)
    requires |pairs| == |envs|
    requires SetUp(was, now, serial, o, context, input, pairs, envs)
    requires k in was.pidObject
    ensures k in now.pidObject && now.pidObject[k] == was.pidObject[k]
  {
    hide AfterPairs, AddEntries, FirstNaming, Reached, Untouched, AllEquipped, Opens, OutputLists, DecodersOpened;
    if o == Returned(TASK_DOWN) {
      FirstPairOwns(was.pidObject, input.found, pairs, |pairs|, serial, k);
    } else if InputOutcome(context, input, pairs) == Returned(0) {
      var p: nat :| FailedAt(p, was, now, serial, o, input.found, pairs, envs);
      FirstPairOwns(was.pidObject, input.found, pairs, p, serial, k);
      AddedAre(AfterPairs(was.pidObject, input.found, pairs, p, serial), input.found, pairs[p],
               if envs[p].allocates then Reached(input.found, pairs[p], envs[p], 0) else 0, serial + p, k);
    }
  }
}
