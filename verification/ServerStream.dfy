/** server/stream.c: what a server stream does to the frames of its source before they are encoded.
    An image is its properties; what OpenCV does to its pixels is not modelled. */
module ServerStreams {
  import opened Basics
  import opened FramePropertiesText
  import OptionText

  type Image = FrameProperties
  datatype Encoder = Encoder(encoding: nat, properties: FrameProperties)

  /** UNSPECIFIED: a dictionary is asked for the entry of NULL. */
  datatype Code = SUCCESS | INVALIDSTATE | INVALIDARGUMENT | NOSUCHENCODING | PARSEERROR | UNSPECIFIED

  predicate NeedsResize(f: FrameProperties, g: FrameProperties) {
    f.width != g.width || f.height != g.height
  }

  predicate NeedsConversion(f: FrameProperties, g: FrameProperties) {
    f.channels != g.channels
  }

  /** The temporary images that frames with properties g pass through to become frames with
      properties f. */
  function Needed(f: FrameProperties, g: FrameProperties): (Option<Image>, Option<Image>) {
    if NeedsResize(f, g) && NeedsConversion(f, g) then (Some(f.(channels := g.channels)), Some(f))
    else if NeedsResize(f, g) || NeedsConversion(f, g) then (Some(f), None)
    else (None, None)
  }

  /** The temporary images there are when they were last allocated for frames with properties
      last.1 to become frames with properties last.0. */
  function Allocated(last: Option<(FrameProperties, FrameProperties)>): (Option<Image>, Option<Image>) {
    if last.None? then (None, None) else Needed(last.value.0, last.value.1)
  }

  /** Every image needed is there and as needed. */
  predicate Fits(f: FrameProperties, g: FrameProperties, temps: (Option<Image>, Option<Image>)) {
    && (Needed(f, g).0.Some? ==> temps.0 == Needed(f, g).0)
    && (Needed(f, g).1.Some? ==> temps.1 == Needed(f, g).1)
  }

  /** The stream, with the properties of the source it is attached to, and what its temporary
      images were last allocated for. */
  datatype State = State(
    paused: bool, client: bool, source: Option<FrameProperties>, properties: Option<FrameProperties>,
    temps: (Option<Image>, Option<Image>), last: Option<(FrameProperties, FrameProperties)>,
    encoding: Option<nat>, encoder: Option<Encoder>)

  datatype Op =
    | Attach(source: Option<FrameProperties>)
    | Detach
    | SetClient
    | SetEncoding(encoding: Option<nat>)
    | Resize(width: int, height: int)
    | SetChannels(channels: int)
    | Pause
    | Unpause
    | SourceChanges(to: FrameProperties)

  function Reallocated(s: State, f: FrameProperties): State
    requires s.source.Some?
  {
    s.(properties := Some(f), temps := Needed(f, s.source.value), last := Some((f, s.source.value)))
  }

  predicate Attached(s: State) {
    s.source.Some? && s.properties.Some?
  }

  function Step(s: State, op: Op): State {
    match op
    case Attach(g) => if !s.paused || g.None? then s else s.(source := g, properties := g)
    case Detach => if !s.paused then s else s.(source := None, properties := None)
    case SetClient => s.(client := true)
    case SetEncoding(e) => if !s.paused || e.None? then s else s.(encoding := e)
    case Resize(w, h) =>
      if !s.paused || !Attached(s) then s
      else Reallocated(s, s.properties.value.(width := Uint16(w), height := Uint16(h)))
    case SetChannels(c) =>
      if (c != 1 && c != 3) || !s.paused || !Attached(s) then s
      else Reallocated(s, s.properties.value.(channels := c))
    case Pause => s.(paused := true)
    case Unpause =>
      if s.paused && s.client && s.encoding.Some? && Attached(s)
      then s.(paused := false, encoder := Some(Encoder(s.encoding.value, s.properties.value)))
      else s
    case SourceChanges(g) => if s.source.Some? then s.(source := Some(g)) else s
  }

  /** An attached stream has the images its frames pass through, and an unpaused one has an
      encoder opened for the frames it produces. Attaching to a source leaves the images of an
      earlier one. */
  ghost predicate Inv(s: State) {
    && s.temps == Allocated(s.last)
    && (s.source.Some? ==> s.properties.Some?)
    && (Attached(s) ==> Transforms(s.properties.value, s.source.value, s.temps))
    && (!s.paused ==>
          && Attached(s) && s.encoding.Some?
          && s.encoder == Some(Encoder(s.encoding.value, s.properties.value)))
  }

  ghost predicate Transforms(f: FrameProperties, g: FrameProperties, temps: (Option<Image>, Option<Image>)) {
    Fits(f, g, temps) && f.depth == g.depth && (NeedsConversion(f, g) ==> f.channels == 1 || f.channels == 3)
  }

  /** A new stream has the raw encoding. */
  function Initial(raw: nat): State {
    State(true, false, None, Some(DEFAULTS), (None, None), None, Some(raw), None)
  }

  lemma InitialInv(raw: nat)
    ensures Inv(Initial(raw))
  {
  }

  lemma StepKeepsInv(s: State, op: Op)
    requires Inv(s) && !op.SourceChanges?
    ensures Inv(Step(s, op))
  {
  }

  function Run(s: State, ops: seq<Op>): State
    decreases |ops|
  {
    if ops == [] then s else Run(Step(s, ops[0]), ops[1..])
  }

  /** As long as no source changes its properties. */
  lemma {:induction false} RunKeepsInv(s: State, ops: seq<Op>)
    requires Inv(s) && forall op :: op in ops ==> !op.SourceChanges?
    ensures Inv(Run(s, ops))
    decreases |ops|
  {
    if ops != [] {
      StepKeepsInv(s, ops[0]);
      RunKeepsInv(Step(s, ops[0]), ops[1..]);
    }
  }

  /** A source may change its properties until it has started, and attached streams are not told.
      A stream still works if and only if what has to be done to the new frames can be done, and
      passes through images like those allocated last. */
  lemma ChangeOfSource(s: State, g: FrameProperties)
    requires Inv(s) && Attached(s)
    ensures Inv(Step(s, SourceChanges(g))) <==>
      var f := s.properties.value;
      && f.depth == g.depth && (NeedsConversion(f, g) ==> f.channels == 1 || f.channels == 3)
      && (NeedsResize(f, g) && NeedsConversion(f, g) ==> LeftTwo(s, f, g))
      && (NeedsResize(f, g) != NeedsConversion(f, g) ==> LeftOne(s, f, g))
  {
  }

  /** The last resize or setChannels was to f too, it changed size and channels, and the source had
      as many channels as g. */
  predicate LeftTwo(s: State, f: FrameProperties, g: FrameProperties) {
    && s.last.Some? && NeedsResize(f, s.last.value.1) && NeedsConversion(f, s.last.value.1)
    && s.last.value.0 == f && s.last.value.1.channels == g.channels
  }

  /** The last resize or setChannels was to f too and changed one of size and channels, or it was
      to f but for the channels, of which the source had as many as f, and changed both. */
  predicate LeftOne(s: State, f: FrameProperties, g: FrameProperties) {
    && s.last.Some?
    && var to, was := s.last.value.0, s.last.value.1;
       if NeedsResize(to, was) && NeedsConversion(to, was) then to.(channels := was.channels) == f
       else (NeedsResize(to, was) || NeedsConversion(to, was)) && to == f
  }

  /** A source that changes size under a stream that was attached to it breaks the stream. */
  lemma ChangeBreaksStream()
    ensures var was, now := FrameProperties(640, 480, 8, 3), FrameProperties(320, 240, 8, 3);
      var s := Run(Initial(0), [SetClient, Attach(Some(was)), Unpause]);
      Inv(s) && !s.paused && !Inv(Step(s, SourceChanges(now)))
  {
    var was := FrameProperties(640, 480, 8, 3);
    RunThree(Initial(0), SetClient, Attach(Some(was)), Unpause);
  }

  /** A stream that still has images from an earlier source survives that very change. */
  lemma OldImagesServe()
    ensures var was, now := FrameProperties(320, 240, 8, 3), FrameProperties(640, 480, 8, 3);
      var resized := Run(Initial(0), [Attach(Some(now)), Resize(320, 240), SetClient]);
      var s := Run(resized, [Attach(Some(was)), Pause, Unpause]);
      Inv(s) && !s.paused && Inv(Step(s, SourceChanges(now)))
  {
    var was, now := FrameProperties(320, 240, 8, 3), FrameProperties(640, 480, 8, 3);
    RunThree(Initial(0), Attach(Some(now)), Resize(320, 240), SetClient);
    var s := Run(Initial(0), [Attach(Some(now)), Resize(320, 240), SetClient]);
    assert s.properties == Some(was) && s.temps == (Some(was), None);
    RunThree(s, Attach(Some(was)), Pause, Unpause);
    var t := Run(s, [Attach(Some(was)), Pause, Unpause]);
    assert t.source == t.properties == Some(was) && t.temps == (Some(was), None) && t.last == s.last;
  }

  lemma RunThree(s: State, a: Op, b: Op, c: Op)
    ensures Run(s, [a, b, c]) == Step(Step(Step(s, a), b), c)
  {
    hide Step;
    var s1 := Step(s, a);
    var s2 := Step(s1, b);
    assert [a, b, c][1..] == [b, c] && [b, c][1..] == [c] && [c][1..] == [];
    assert Run(s, [a, b, c]) == Run(s1, [b, c]) == Run(s2, [c]) == Step(s2, c);
  }

  class Source {
    var properties: Option<FrameProperties>
    var started: bool

    /** SVRD_Source_setFrameProperties. */
    method SetFrameProperties(p: FrameProperties) returns (code: Code)
      modifies this`properties
      ensures code == (if started then INVALIDSTATE else SUCCESS)
      ensures properties == if started then old(properties) else Some(p)
    {
      if started {
        return INVALIDSTATE;
      }
      properties := Some(p);
      code := SUCCESS;
    }
  }

  /** cvResize: both images must have the same depth and channels. */
  method CvResize(src: Image, dst: Option<Image>) returns (r: Option<Image>)
    ensures r == if dst.Some? && src.depth == dst.value.depth && src.channels == dst.value.channels then dst else None
  {
    r := if dst.Some? && src.depth == dst.value.depth && src.channels == dst.value.channels then dst else None;
  }

  predicate Converts(src: Image, dst: Image, toGrey: bool) {
    && !NeedsResize(src, dst) && src.depth == dst.depth
    && (if toGrey then src.channels == 3 && dst.channels == 1 else src.channels == 1 && dst.channels == 3)
  }

  /** cvCvtColor between RGB and grey: both images must have the same size and depth. */
  method CvCvtColor(src: Image, dst: Option<Image>, toGrey: bool) returns (r: Option<Image>)
    ensures r == if dst.Some? && Converts(src, dst.value, toGrey) then dst else None
  {
    r := if dst.Some? && Converts(src, dst.value, toGrey) then dst else None;
  }

  class Stream {
    var paused: bool
    var client: bool
    var source: Source?
    var frameProperties: Option<FrameProperties>
    var tempFrame0: Option<Image>
    var tempFrame1: Option<Image>
    ghost var last: Option<(FrameProperties, FrameProperties)>
    var encoding: Option<nat>
    var encoder: Option<Encoder>

    ghost function Abs(): State
      reads this, source
    {
      State(paused, client, if source == null then None else source.properties, frameProperties,
            (tempFrame0, tempFrame1), last, encoding, encoder)
    }

    /** A source that is attached has properties. */
    ghost predicate Valid()
      reads this, source
    {
      Inv(Abs()) && (source != null ==> source.properties.Some?)
    }

    constructor (raw: nat)
      ensures Valid() && Abs() == Initial(raw) && paused && !client && source == null && encoding == Some(raw)
    {
      paused, client, source, frameProperties := true, false, null, Some(DEFAULTS);
      tempFrame0, tempFrame1, last, encoding, encoder := None, None, None, Some(raw), None;
    }

    method SetClient()
      requires Valid()
      modifies this`client
      ensures Valid() && Abs() == Step(old(Abs()), Op.SetClient) && client
    {
      client := true;
    }

    method AttachSource(source: Source) returns (code: Code)
      requires Valid()
      modifies this`source, this`frameProperties
      ensures Valid() && Abs() == Step(old(Abs()), Attach(source.properties))
      ensures code == if old(paused) && source.properties.Some? then SUCCESS else INVALIDSTATE
      ensures if code == SUCCESS then this.source == source && frameProperties == source.properties else unchanged(this)
    {
      if !paused || source.properties == None {
        return INVALIDSTATE;
      }
      this.source := source;
      frameProperties := source.properties;
      code := SUCCESS;
    }

    method DetachSource() returns (code: Code)
      requires Valid()
      modifies this`source, this`frameProperties
      ensures Valid() && Abs() == Step(old(Abs()), Detach)
      ensures code == if old(paused) then SUCCESS else INVALIDSTATE
      ensures if code == SUCCESS then source == null && frameProperties == None else unchanged(this)
    {
      if !paused {
        return INVALIDSTATE;
      }
      source := null;
      frameProperties := None;
      code := SUCCESS;
    }

    /** SVRD_Stream_setEncoding, given what its descriptor parses as and the encodings by name. */
    method SetEncoding(parsed: OptionText.Parsed, encodings: map<string, nat>) returns (code: Code)
      requires Valid()
      modifies this`encoding
      ensures Valid()
      ensures var e := if parsed.Malformed? || parsed.name.None? || parsed.name.value !in encodings then None
                       else Some(encodings[parsed.name.value]);
        && Abs() == Step(old(Abs()), Op.SetEncoding(e))
        && code == if !old(paused) then INVALIDSTATE else if parsed.Malformed? then PARSEERROR
                   else if parsed.name.None? then UNSPECIFIED
                   else if e == None then NOSUCHENCODING else SUCCESS
      ensures encoding == if code == SUCCESS then Some(encodings[parsed.name.value]) else old(encoding)
    {
      if !paused {
        return INVALIDSTATE;
      }
      if parsed.Malformed? {
        return PARSEERROR;
      }
      if parsed.name.None? {
        return UNSPECIFIED;
      }
      if parsed.name.value !in encodings {
        return NOSUCHENCODING;
      }
      encoding := Some(encodings[parsed.name.value]);
      code := SUCCESS;
    }

    method ReallocateTemporaryFrames()
      requires source != null && source.properties.Some? && frameProperties.Some?
      modifies this`tempFrame0, this`tempFrame1, this`last
      ensures (tempFrame0, tempFrame1) == Needed(frameProperties.value, source.properties.value)
      ensures last == Some((frameProperties.value, source.properties.value))
    {
      var f, g := frameProperties.value, source.properties.value;
      last := Some((f, g));
      var resize := f.width != g.width || f.height != g.height;
      var colorConvert := f.channels != g.channels;
      tempFrame0, tempFrame1 := None, None;
      if resize && colorConvert {
        tempFrame0 := Some(f.(channels := g.channels));
        tempFrame1 := Some(f);
      } else if resize || colorConvert {
        tempFrame0 := Some(f);
      }
    }

    method Resize(width: int, height: int) returns (code: Code)
      requires Valid()
      modifies this`frameProperties, this`tempFrame0, this`tempFrame1, this`last
      ensures Valid() && Abs() == Step(old(Abs()), Op.Resize(width, height))
      ensures code == if old(paused && source != null) then SUCCESS else INVALIDSTATE
      ensures code == SUCCESS ==>
        && old(frameProperties).Some?
        && frameProperties == Some(old(frameProperties).value.(width := width % 0x1_0000, height := height % 0x1_0000))
      ensures code != SUCCESS ==> unchanged(this)
    {
      if !paused || source == null {
        return INVALIDSTATE;
      }
      frameProperties := Some(frameProperties.value.(width := Uint16(width), height := Uint16(height)));
      ReallocateTemporaryFrames();
      code := SUCCESS;
    }

    method SetChannels(channels: int) returns (code: Code)
      requires Valid()
      modifies this`frameProperties, this`tempFrame0, this`tempFrame1, this`last
      ensures Valid() && Abs() == Step(old(Abs()), Op.SetChannels(channels))
      ensures code == if channels != 1 && channels != 3 then INVALIDARGUMENT
                      else if old(paused && source != null) then SUCCESS else INVALIDSTATE
      ensures code == SUCCESS ==>
        old(frameProperties).Some? && frameProperties == Some(old(frameProperties).value.(channels := channels))
      ensures code != SUCCESS ==> unchanged(this)
    {
      if channels != 1 && channels != 3 {
        return INVALIDARGUMENT;
      }
      if !paused || source == null {
        return INVALIDSTATE;
      }
      frameProperties := Some(frameProperties.value.(channels := channels));
      ReallocateTemporaryFrames();
      code := SUCCESS;
    }

    method Pause()
      requires Valid()
      modifies this`paused
      ensures Valid() && Abs() == Step(old(Abs()), Op.Pause) && paused
    {
      if paused {
        return;
      }
      paused := true;
    }

    method Unpause()
      requires Valid()
      modifies this`paused, this`encoder
      ensures Valid() && Abs() == Step(old(Abs()), Op.Unpause)
      ensures if old(paused) && client && encoding.Some? && source != null
              then !paused && frameProperties.Some? && encoder == Some(Encoder(encoding.value, frameProperties.value))
              else unchanged(this)
    {
      if paused && client && encoding != None && source != null {
        paused := false;
        encoder := Some(Encoder(encoding.value, frameProperties.value));
      }
    }

    /** SVRD_Stream_preprocessFrame: OpenCV takes the images exactly when a frame whose colours
        are converted has 1 or 3 channels, and what comes out is what the encoder was opened for. */
    method PreprocessFrame(frame: Image) returns (r: Option<Image>)
      requires Valid() && !paused && frame == source.properties.value
      ensures r.Some? <==>
        (NeedsConversion(frameProperties.value, frame) ==> frame.channels == 1 || frame.channels == 3)
      ensures r.Some? ==> r.value == encoder.value.properties
    {
      var f, g := frameProperties.value, source.properties.value;
      var resize := f.width != g.width || f.height != g.height;
      var colorConvert := f.channels != g.channels;
      if resize && colorConvert {
        r := CvResize(frame, tempFrame0);
        if r.Some? {
          r := CvCvtColor(r.value, tempFrame1, f.channels == 1);
        }
      } else if resize {
        r := CvResize(frame, tempFrame0);
      } else if colorConvert {
        r := CvCvtColor(frame, tempFrame0, f.channels == 1);
      } else {
        r := Some(frame);
      }
    }
  }
}
