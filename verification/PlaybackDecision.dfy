/**
 The playback decision (`services/decision_engine.rs`): whether a video stream can be played as it
 is, repackaged, transcoded or tone-mapped, and to which resolution.

 The tables of codec, container and HDR aliases are parameters: any functions that bring a name to
 its canonical form. The throughput factor is a real number.
 */
module PlaybackDecision {
  import opened Options
  import opened Text

  datatype VideoDecision = DirectPlay | Remux | Transcode | ToneMap

  datatype QualityMode = Auto | Maximum | Manual

  datatype Size = Size(w: nat, h: nat)

  datatype Reason = Reason(factor: string, result: VideoDecision)

  datatype Media = Media(
    container: string,
    videoCodec: string,
    bitDepth: nat,
    resolution: Size,
    videoBitrate: nat,
    audioBitrate: nat,
    dynamicRange: string,
    dvProfile: Option<nat>,
    dvCompatibility: Option<string>)

  datatype Device = Device(
    videoCodecs: set<string>,
    containers: set<string>,
    hdrFormats: set<string>,
    maxResolution: Size,
    maxBitrate: nat,
    maxBitDepth: nat,
    supportsDolbyVision: bool,
    allowClientSideFallback: bool)

  datatype Config = Config(
    allowClientSideFallback: bool,
    safetyFactor: real,
    mode: QualityMode,
    manualMax: Option<Size>)

  datatype Names = Names(
    codec: string -> string,
    container: string -> string,
    hdr: string -> string,
    known: string -> bool)

  const U64_MAX: nat := 0xffff_ffff_ffff_ffff

  // ------------------------------------------------------------- verdicts

  function Rank(d: VideoDecision): nat
  {
    match d
    case DirectPlay => 0
    case Remux => 1
    case Transcode => 2
    case ToneMap => 3
  }

  /** The more expensive of two decisions. */
  function Join(a: VideoDecision, b: VideoDecision): VideoDecision
  {
    if Rank(a) >= Rank(b) then a else b
  }

  predicate CodecSupported(names: Names, codec: string, supported: set<string>)
  {
    names.known(names.codec(codec)) && exists s :: s in supported && names.codec(s) == names.codec(codec)
  }

  /** The parts of a text between commas. */
  function SplitCommas(s: string): (parts: seq<string>)
    ensures |parts| > 0
  {
    if s == [] then [[]]
    else
      var rest := SplitCommas(s[1..]);
      if s[0] == ',' then [[]] + rest else [[s[0]] + rest[0]] + rest[1..]
  }

  predicate FormatSupported(names: Names, source: string, supported: set<string>)
  {
    && names.known(names.container(source))
    && exists formats :: formats in supported
                         && exists f :: f in SplitCommas(formats) && names.container(f) == names.container(source)
  }

  predicate ContainerSupported(names: Names, container: string, supported: set<string>)
  {
    forall source :: source in SplitCommas(container) ==> FormatSupported(names, source, supported)
  }

  predicate HdrSupported(names: Names, range: string, supported: set<string>)
  {
    names.hdr(range) == "sdr" || exists s :: s in supported && names.hdr(s) == names.hdr(range)
  }

  function Normalized(range: string): string
  {
    AsciiLower(Trim(range))
  }

  predicate IsHdrContent(range: string)
  {
    range in ["hdr10", "hdr10_plus", "hdr10+", "hlg"] || "dolby_vision" <= range
  }

  /** The profile is cut to 32 bits. */
  function DvProfile(media: Media): Option<nat>
  {
    match media.dvProfile
    case None => None
    case Some(p) => Some(p % 0x1_0000_0000)
  }

  function DvBase(media: Media): Option<string>
  {
    if media.dvCompatibility in [Some("hdr10"), Some("hlg"), Some("sdr")] then media.dvCompatibility
    else if Normalized(media.dynamicRange) == "dolby_vision_p8.1" then Some("hdr10")
    else if Normalized(media.dynamicRange) == "dolby_vision_p8.4" then Some("hlg")
    else if DvProfile(media) == Some(7) then Some("hdr10")
    else None
  }

  predicate IsDolbyVision(media: Media)
  {
    DvProfile(media).Some? || "dolby_vision" <= Normalized(media.dynamicRange)
  }

  /** A Dolby Vision stream whose base layer the device can show on its own. */
  predicate HasUsableBase(names: Names, media: Media, device: Device)
  {
    && (DvProfile(media) == Some(7) || DvProfile(media) == Some(8))
    && DvBase(media).Some? && HdrSupported(names, DvBase(media).value, device.hdrFormats)
  }

  function DynamicRangeVerdict(names: Names, media: Media, device: Device, config: Config): VideoDecision
  {
    var range := Normalized(media.dynamicRange);
    if IsDolbyVision(media) then
      if device.supportsDolbyVision then DirectPlay
      else if HasUsableBase(names, media, device) then
        if config.allowClientSideFallback && device.allowClientSideFallback then DirectPlay else Remux
      else ToneMap
    else if range != "sdr" && !IsHdrContent(range) then Transcode
    else if IsHdrContent(range) && !HdrSupported(names, range, device.hdrFormats) then ToneMap
    else DirectPlay
  }

  function TranscodeIf(needed: bool): VideoDecision
  {
    if needed then Transcode else DirectPlay
  }

  predicate Exceeds(a: Size, b: Size)
  {
    a.w > b.w || a.h > b.h
  }

  function EffectiveBitrate(media: Media): nat
  {
    if media.videoBitrate + media.audioBitrate > U64_MAX then U64_MAX else media.videoBitrate + media.audioBitrate
  }

  /** A float converted to 64 bits: towards zero, held within the type. */
  function ToU64(x: real): nat
  {
    if x < 0.0 then 0 else if x.Floor > U64_MAX then U64_MAX else x.Floor
  }

  function BitrateLimit(throughput: Option<nat>, config: Config): Option<nat>
  {
    if config.mode == Maximum || throughput == None then None
    else Some(ToU64(throughput.value as real * config.safetyFactor))
  }

  function CodecVerdict(names: Names, media: Media, device: Device): VideoDecision
  {
    TranscodeIf(!CodecSupported(names, media.videoCodec, device.videoCodecs))
  }

  function BitDepthVerdict(media: Media, device: Device): VideoDecision
  {
    TranscodeIf(media.bitDepth == 0 || (media.bitDepth > device.maxBitDepth && device.maxBitDepth > 0))
  }

  function ResolutionVerdict(media: Media, device: Device): VideoDecision
  {
    TranscodeIf(Exceeds(media.resolution, device.maxResolution))
  }

  function DeviceBitrateVerdict(media: Media, device: Device): VideoDecision
  {
    TranscodeIf(device.maxBitrate > 0 && EffectiveBitrate(media) > device.maxBitrate)
  }

  function NetworkVerdict(media: Media, throughput: Option<nat>, config: Config): VideoDecision
  {
    var limit := BitrateLimit(throughput, config);
    TranscodeIf(limit.Some? && EffectiveBitrate(media) > limit.value)
  }

  function ManualVerdict(media: Media, config: Config): VideoDecision
  {
    TranscodeIf(config.mode == Manual && config.manualMax.Some? && Exceeds(media.resolution, config.manualMax.value))
  }

  function ContainerVerdict(names: Names, media: Media, device: Device): VideoDecision
  {
    if ContainerSupported(names, media.container, device.containers) then DirectPlay else Remux
  }

  /** The checks of what the device can decode. */
  function FormatVerdict(names: Names, media: Media, device: Device): VideoDecision
  {
    Join(CodecVerdict(names, media, device), Join(BitDepthVerdict(media, device), ResolutionVerdict(media, device)))
  }

  /** The checks against limits of the device, the network and the user. */
  function LimitVerdict(media: Media, device: Device, throughput: Option<nat>, config: Config): VideoDecision
  {
    Join(DeviceBitrateVerdict(media, device),
         Join(NetworkVerdict(media, throughput, config), ManualVerdict(media, config)))
  }

  /** The most expensive of the verdicts of the eight checks, each taken on its own. */
  function JoinedVerdict(names: Names, media: Media, device: Device, throughput: Option<nat>,
                         config: Config): VideoDecision
  {
    Join(Join(FormatVerdict(names, media, device), DynamicRangeVerdict(names, media, device, config)),
         Join(LimitVerdict(media, device, throughput, config), ContainerVerdict(names, media, device)))
  }

  // ------------------------------------------------- the sequence of checks

  /** The most expensive decision that a list of reasons gives. */
  function Strongest(reasons: seq<Reason>): VideoDecision
  {
    if reasons == [] then DirectPlay
    else Join(Strongest(reasons[..|reasons| - 1]), reasons[|reasons| - 1].result)
  }

  lemma StrongestAppend(reasons: seq<Reason>, reason: Reason)
    ensures Strongest(reasons + [reason]) == Join(Strongest(reasons), reason.result)
  {
    assert (reasons + [reason])[..|reasons|] == reasons;
  }

  method EvaluateDynamicRange(names: Names, media: Media, device: Device, config: Config, reasons: seq<Reason>)
    returns (decision: VideoDecision, after: seq<Reason>)
    ensures decision == DynamicRangeVerdict(names, media, device, config)
    ensures reasons <= after && Strongest(after) == Join(Strongest(reasons), decision)
  {
    var range := Normalized(media.dynamicRange);
    if IsDolbyVision(media) {
      if device.supportsDolbyVision {
        return DirectPlay, reasons;
      }
      if HasUsableBase(names, media, device) {
        if config.allowClientSideFallback && device.allowClientSideFallback {
          StrongestAppend(reasons, Reason("dolby_vision", DirectPlay));
          return DirectPlay, reasons + [Reason("dolby_vision", DirectPlay)];
        }
        StrongestAppend(reasons, Reason("dolby_vision", Remux));
        return Remux, reasons + [Reason("dolby_vision", Remux)];
      }
      StrongestAppend(reasons, Reason("dolby_vision", ToneMap));
      return ToneMap, reasons + [Reason("dolby_vision", ToneMap)];
    }
    if range != "sdr" && !IsHdrContent(range) {
      StrongestAppend(reasons, Reason("dynamic_range", Transcode));
      return Transcode, reasons + [Reason("dynamic_range", Transcode)];
    }
    if IsHdrContent(range) && !HdrSupported(names, range, device.hdrFormats) {
      StrongestAppend(reasons, Reason("hdr", ToneMap));
      return ToneMap, reasons + [Reason("hdr", ToneMap)];
    }
    return DirectPlay, reasons;
  }

  lemma JoinAssociates(a: VideoDecision, b: VideoDecision, c: VideoDecision, d: VideoDecision)
    ensures Join(a, Join(b, Join(c, d))) == Join(Join(Join(a, b), c), d)
  {
  }

  /** Codec, bit depth and resolution. */
  method EvaluateFormat(names: Names, media: Media, device: Device)
    returns (decision: VideoDecision, reasons: seq<Reason>)
    ensures decision == FormatVerdict(names, media, device) == Strongest(reasons)
    ensures decision == DirectPlay || decision == Transcode
  {
    decision, reasons := DirectPlay, [];
    if !CodecSupported(names, media.videoCodec, device.videoCodecs) {
      decision, reasons := Log(reasons, "video_codec", Transcode);
    }
    if media.bitDepth == 0 {
      decision, reasons := Log(reasons, "bit_depth", Transcode);
    } else if media.bitDepth > device.maxBitDepth && device.maxBitDepth > 0 {
      decision, reasons := Log(reasons, "bit_depth", Transcode);
    }
    if Exceeds(media.resolution, device.maxResolution) {
      decision, reasons := Log(reasons, "resolution", Transcode);
    }
  }

  /** The bitrate limits and the manual cap. */
  method EvaluateLimits(media: Media, device: Device, throughput: Option<nat>, config: Config,
                        before: VideoDecision, logged: seq<Reason>)
    returns (decision: VideoDecision, reasons: seq<Reason>)
    ensures decision == Join(before, LimitVerdict(media, device, throughput, config))
    ensures Strongest(reasons) == Join(Strongest(logged), LimitVerdict(media, device, throughput, config))
  {
    decision, reasons := before, logged;
    JoinAssociates(before, DeviceBitrateVerdict(media, device), NetworkVerdict(media, throughput, config),
                   ManualVerdict(media, config));
    JoinAssociates(Strongest(logged), DeviceBitrateVerdict(media, device), NetworkVerdict(media, throughput, config),
                   ManualVerdict(media, config));
    var bitrate := EffectiveBitrate(media);
    if device.maxBitrate > 0 && bitrate > device.maxBitrate {
      decision, reasons := LogUnlessToneMap(decision, reasons, "device_bitrate");
    }
    ghost var d, r := Join(before, DeviceBitrateVerdict(media, device)),
        Join(Strongest(logged), DeviceBitrateVerdict(media, device));
    assert decision == d && Strongest(reasons) == r;
    var limit := BitrateLimit(throughput, config);
    if limit.Some? && bitrate > limit.value {
      decision, reasons := LogUnlessToneMap(decision, reasons, "bitrate");
    }
    assert decision == Join(d, NetworkVerdict(media, throughput, config));
    assert Strongest(reasons) == Join(r, NetworkVerdict(media, throughput, config));
    d, r := decision, Strongest(reasons);
    if config.mode == Manual && config.manualMax.Some? {
      if Exceeds(media.resolution, config.manualMax.value) {
        decision, reasons := LogUnlessToneMap(decision, reasons, "quality_mode");
      }
    }
    assert decision == Join(d, ManualVerdict(media, config))
           && Strongest(reasons) == Join(r, ManualVerdict(media, config));
  }

  /**
   The checks in the program's order, each overriding the decision so far or leaving it. The
   outcome is the join of all the verdicts, and it is the strongest of the reasons logged.
   */
  method EvaluateVideo(names: Names, media: Media, device: Device, throughput: Option<nat>, config: Config)
    returns (decision: VideoDecision, reasons: seq<Reason>)
    ensures decision == JoinedVerdict(names, media, device, throughput, config)
    ensures decision == Strongest(reasons)
  {
    decision, reasons := EvaluateFormat(names, media, device);
    var range;
    range, reasons := EvaluateDynamicRange(names, media, device, config, reasons);
    if range == ToneMap {
      decision := ToneMap;
    } else if range == Transcode || (decision == DirectPlay && range == Remux) {
      decision := range;
    }
    decision, reasons := EvaluateLimits(media, device, throughput, config, decision, reasons);
    if decision == Transcode || decision == ToneMap {
      return decision, reasons;
    }
    if !ContainerSupported(names, media.container, device.containers) {
      StrongestAppend(reasons, Reason("container", Remux));
      return Remux, reasons + [Reason("container", Remux)];
    }
    if decision == Remux {
      return decision, reasons;
    }
    StrongestAppend(reasons, Reason("video", DirectPlay));
    return DirectPlay, reasons + [Reason("video", DirectPlay)];
  }

  /** A check before the dynamic range, where nothing can be stronger than a transcode yet. */
  method Log(reasons: seq<Reason>, factor: string, result: VideoDecision)
    returns (decision: VideoDecision, after: seq<Reason>)
    ensures decision == result
    ensures Strongest(after) == Join(Strongest(reasons), result)
  {
    StrongestAppend(reasons, Reason(factor, result));
    return result, reasons + [Reason(factor, result)];
  }

  /** A check after the dynamic range, which must not weaken a tone mapping. */
  method LogUnlessToneMap(decision: VideoDecision, reasons: seq<Reason>, factor: string)
    returns (next: VideoDecision, after: seq<Reason>)
    ensures next == Join(decision, Transcode)
    ensures Strongest(after) == Join(Strongest(reasons), Transcode)
  {
    StrongestAppend(reasons, Reason(factor, Transcode));
    next := if decision != ToneMap then Transcode else decision;
    after := reasons + [Reason(factor, Transcode)];
  }

  // ----------------------------------------------------------- monotonicity

  /** A limit that rejects nothing which the other one accepts; zero is no limit. */
  predicate LimitAtLeast(more: nat, less: nat)
  {
    more == 0 || (less > 0 && more >= less)
  }

  /** The device accepts at least what the other one accepts. */
  predicate AcceptsMore(more: Device, less: Device)
  {
    && less.videoCodecs <= more.videoCodecs && less.containers <= more.containers && less.hdrFormats <= more.hdrFormats
    && Fits(less.maxResolution, more.maxResolution)
    && LimitAtLeast(more.maxBitrate, less.maxBitrate) && LimitAtLeast(more.maxBitDepth, less.maxBitDepth)
    && (less.supportsDolbyVision ==> more.supportsDolbyVision)
    && (less.allowClientSideFallback ==> more.allowClientSideFallback)
  }

  /** An estimate that is no lower; without one, nothing is limited. */
  predicate ThroughputAtLeast(high: Option<nat>, low: Option<nat>)
  {
    high == None || (low.Some? && low.value <= high.value)
  }

  lemma RealProducts(x: real, y: real, f: real)
    requires x <= y && f >= 0.0
    ensures x * f <= y * f
  {
  }

  lemma ToU64Monotone(x: real, y: real)
    requires x <= y
    ensures ToU64(x) <= ToU64(y)
  {
    assert x.Floor as real <= x && y < (y.Floor + 1) as real;
    assert x.Floor <= y.Floor;
  }

  lemma NegativeToU64(x: real, f: real)
    requires x >= 0.0 && f < 0.0
    ensures ToU64(x * f) == 0
  {
    RealProducts(0.0, x, -f);
    assert x * f == -(x * -f);
  }

  lemma LimitGrows(low: nat, high: nat, config: Config)
    requires low <= high && config.mode != Maximum
    ensures BitrateLimit(Some(low), config).value <= BitrateLimit(Some(high), config).value
  {
    var f := config.safetyFactor;
    if f >= 0.0 {
      RealProducts(low as real, high as real, f);
      ToU64Monotone(low as real * f, high as real * f);
    } else {
      NegativeToU64(low as real, f);
      NegativeToU64(high as real, f);
    }
  }

  lemma NetworkEases(media: Media, low: Option<nat>, high: Option<nat>, config: Config)
    requires ThroughputAtLeast(high, low)
    ensures Rank(NetworkVerdict(media, high, config)) <= Rank(NetworkVerdict(media, low, config))
  {
    if config.mode != Maximum && high.Some? {
      LimitGrows(low.value, high.value, config);
    }
  }

  lemma ContainerEases(names: Names, container: string, less: set<string>, more: set<string>)
    requires less <= more && ContainerSupported(names, container, less)
    ensures ContainerSupported(names, container, more)
  {
    forall source | source in SplitCommas(container) ensures FormatSupported(names, source, more) {
      assert FormatSupported(names, source, less);
      var formats :| formats in less
                     && exists f :: f in SplitCommas(formats) && names.container(f) == names.container(source);
      assert formats in more;
    }
  }

  lemma DynamicRangeEases(names: Names, media: Media, less: Device, more: Device, config: Config)
    requires AcceptsMore(more, less)
    ensures Rank(DynamicRangeVerdict(names, media, more, config))
            <= Rank(DynamicRangeVerdict(names, media, less, config))
  {
  }

  lemma JoinMonotone(a: VideoDecision, b: VideoDecision, c: VideoDecision, d: VideoDecision)
    requires Rank(a) <= Rank(c) && Rank(b) <= Rank(d)
    ensures Rank(Join(a, b)) <= Rank(Join(c, d))
  {
  }

  lemma FormatEases(names: Names, media: Media, less: Device, more: Device)
    requires AcceptsMore(more, less)
    ensures Rank(FormatVerdict(names, media, more)) <= Rank(FormatVerdict(names, media, less))
  {
    JoinMonotone(BitDepthVerdict(media, more), ResolutionVerdict(media, more),
                 BitDepthVerdict(media, less), ResolutionVerdict(media, less));
    JoinMonotone(CodecVerdict(names, media, more), Join(BitDepthVerdict(media, more), ResolutionVerdict(media, more)),
                 CodecVerdict(names, media, less), Join(BitDepthVerdict(media, less), ResolutionVerdict(media, less)));
  }

  lemma LimitEases(media: Media, less: Device, more: Device, low: Option<nat>, high: Option<nat>, config: Config)
    requires AcceptsMore(more, less) && ThroughputAtLeast(high, low)
    ensures Rank(LimitVerdict(media, more, high, config)) <= Rank(LimitVerdict(media, less, low, config))
  {
    NetworkEases(media, low, high, config);
    assert Rank(DeviceBitrateVerdict(media, more)) <= Rank(DeviceBitrateVerdict(media, less));
  }

  lemma ContainerVerdictEases(names: Names, media: Media, less: Device, more: Device)
    requires AcceptsMore(more, less)
    ensures Rank(ContainerVerdict(names, media, more)) <= Rank(ContainerVerdict(names, media, less))
  {
    if ContainerSupported(names, media.container, less.containers) {
      ContainerEases(names, media.container, less.containers, more.containers);
    }
  }

  /**
   More throughput, or a device that accepts more in any respect, never makes the decision more
   expensive. Limits are compared with zero as the loosest.
   */
  lemma MoreSupportNeverHurts(names: Names, media: Media, less: Device, more: Device,
                              low: Option<nat>, high: Option<nat>, config: Config)
    requires AcceptsMore(more, less) && ThroughputAtLeast(high, low)
    ensures Rank(JoinedVerdict(names, media, more, high, config))
            <= Rank(JoinedVerdict(names, media, less, low, config))
  {
    var f, f' := FormatVerdict(names, media, more), FormatVerdict(names, media, less);
    var r, r' := DynamicRangeVerdict(names, media, more, config), DynamicRangeVerdict(names, media, less, config);
    var l, l' := LimitVerdict(media, more, high, config), LimitVerdict(media, less, low, config);
    var c, c' := ContainerVerdict(names, media, more), ContainerVerdict(names, media, less);
    FormatEases(names, media, less, more);
    DynamicRangeEases(names, media, less, more, config);
    LimitEases(media, less, more, low, high, config);
    ContainerVerdictEases(names, media, less, more);
    JoinMonotone(f, r, f', r');
    JoinMonotone(l, c, l', c');
    JoinMonotone(Join(f, r), Join(l, c), Join(f', r'), Join(l', c'));
  }

  /**
   Compared as numbers, a larger bit depth limit can still hurt, because zero is the loosest: a new
   limit makes the decision more expensive exactly when it is not zero, is below the stream's
   depth, and meets a stream that was not transcoded so far.
   */
  lemma BitDepthLimitHurts(names: Names, media: Media, device: Device, m: nat, throughput: Option<nat>, config: Config)
    ensures var before := JoinedVerdict(names, media, device, throughput, config);
            var after := JoinedVerdict(names, media, device.(maxBitDepth := m), throughput, config);
            && (Rank(after) > Rank(before) <==> 0 < m < media.bitDepth && Rank(before) < Rank(Transcode))
            && (Rank(after) > Rank(before) ==> after == Transcode)
  {
    SameElsewhere(names, media, device, device.(maxBitDepth := m), config);
  }

  /** The same for the bitrate limit. */
  lemma BitrateLimitHurts(names: Names, media: Media, device: Device, m: nat, throughput: Option<nat>, config: Config)
    ensures var before := JoinedVerdict(names, media, device, throughput, config);
            var after := JoinedVerdict(names, media, device.(maxBitrate := m), throughput, config);
            && (Rank(after) > Rank(before) <==> 0 < m < EffectiveBitrate(media) && Rank(before) < Rank(Transcode))
            && (Rank(after) > Rank(before) ==> after == Transcode)
  {
    SameElsewhere(names, media, device, device.(maxBitrate := m), config);
  }

  lemma SameElsewhere(names: Names, media: Media, a: Device, b: Device, config: Config)
    requires b == a.(maxBitDepth := b.maxBitDepth, maxBitrate := b.maxBitrate)
    ensures CodecVerdict(names, media, a) == CodecVerdict(names, media, b)
    ensures DynamicRangeVerdict(names, media, a, config) == DynamicRangeVerdict(names, media, b, config)
    ensures ContainerVerdict(names, media, a) == ContainerVerdict(names, media, b)
  {
  }

  lemma {:induction false} WithoutCommas(s: string)
    requires ',' !in s
    ensures SplitCommas(s) == [s]
    decreases |s|
  {
    if s != [] {
      WithoutCommas(s[1..]);
      assert [s[0]] + s[1..] == s;
    }
  }

  /**
   A device with the stream's known codec and container plays ten bits as they are, as long as it
   declares no bit depth. Once it declares a lower one, which is more than nothing, it is sent a
   transcode.
   */
  lemma DeclaringALimitCanHurt(names: Names, codec: string, container: string, size: Size, m: nat, config: Config)
    requires names.known(names.codec(codec)) && names.known(names.container(container)) && ',' !in container
    requires config.mode != Manual && 0 < m < 10
    ensures var media := Media(container, codec, 10, size, 0, 0, "sdr", None, None);
            var device := Device({codec}, {container}, {}, size, 0, 0, false, false);
            && JoinedVerdict(names, media, device, None, config) == DirectPlay
            && JoinedVerdict(names, media, device.(maxBitDepth := m), None, config) == Transcode
  {
    var media := Media(container, codec, 10, size, 0, 0, "sdr", None, None);
    var device := Device({codec}, {container}, {}, size, 0, 0, false, false);
    SdrIsNormal();
    WithoutCommas(container);
    assert codec in device.videoCodecs;
    assert ContainerSupported(names, container, device.containers) by {
      assert container in device.containers && container in SplitCommas(container);
    }
    BitDepthLimitHurts(names, media, device, m, None, config);
  }

  lemma SdrIsNormal()
    ensures Normalized("sdr") == "sdr" && !("dolby_vision" <= "sdr") && !IsHdrContent("sdr")
  {
    assert |"dolby_vision"| == 12;
    assert TrimStart("sdr") == "sdr" && TrimEnd("sdr") == "sdr";
    assert AsciiLower("sdr") == "sdr";
  }

  // ------------------------------------------------------ target resolution

  const LADDER: seq<Size> := [Size(3840, 2160), Size(1920, 1080), Size(1280, 720), Size(854, 480)]

  predicate Fits(a: Size, b: Size)
  {
    a.w <= b.w && a.h <= b.h
  }

  function FirstFitting(ladder: seq<Size>, s: Size): (r: Option<Size>)
    ensures r.Some? ==> r.value in ladder && Fits(r.value, s)
    ensures r == None ==> forall rung :: rung in ladder ==> !Fits(rung, s)
  {
    if ladder == [] then None
    else if Fits(ladder[0], s) then Some(ladder[0])
    else FirstFitting(ladder[1..], s)
  }

  function NormalizeResolution(s: Size): Size
  {
    match FirstFitting(LADDER, s)
    case Some(rung) => rung
    case None => Size(s.w / 2 * 2, s.h / 2 * 2)
  }

  function MinSize(a: Size, b: Size): Size
  {
    Size(if a.w <= b.w then a.w else b.w, if a.h <= b.h then a.h else b.h)
  }

  function MaxResolutionFor(bitrate: nat): Size
  {
    if bitrate >= 5_000_000 then Size(1920, 1080)
    else if bitrate >= 2_000_000 then Size(1280, 720)
    else Size(854, 480)
  }

  /** The smallest of the bounds that apply, side by side. */
  function Capped(media: Media, device: Device, throughput: Option<nat>, config: Config): Size
  {
    var target := MinSize(media.resolution, device.maxResolution);
    var limit := BitrateLimit(throughput, config);
    var limited := if limit.Some? then MinSize(target, MaxResolutionFor(limit.value)) else target;
    if config.mode == Manual && config.manualMax.Some? then MinSize(limited, config.manualMax.value) else limited
  }

  function TargetResolution(media: Media, device: Device, throughput: Option<nat>, config: Config,
                            decision: VideoDecision): Option<Size>
  {
    if decision == DirectPlay || decision == Remux then None
    else Some(NormalizeResolution(Capped(media, device, throughput, config)))
  }

  lemma LadderRungs(rung: Size)
    requires rung in LADDER
    ensures rung.w % 2 == 0 && rung.h % 2 == 0 && Fits(Size(854, 480), rung)
    ensures NormalizeResolution(rung) == rung
  {
    assert LADDER[1..][1..][1..] == [Size(854, 480)];
    assert FirstFitting(LADDER, rung) == Some(rung);
  }

  /** The ladder's steps all fit where the smallest does not fail to. */
  lemma NoRungFits(s: Size)
    ensures FirstFitting(LADDER, s) == None <==> s.w < 854 || s.h < 480
  {
    assert LADDER[3] in LADDER;
    if FirstFitting(LADDER, s).Some? {
      LadderRungs(FirstFitting(LADDER, s).value);
    }
  }

  lemma NormalizedFits(s: Size)
    ensures var r := NormalizeResolution(s);
            && Fits(r, s) && r.w % 2 == 0 && r.h % 2 == 0
            && NormalizeResolution(r) == r
            && (r.w > 0 && r.h > 0 <==> s.w >= 2 && s.h >= 2)
  {
    NoRungFits(s);
    match FirstFitting(LADDER, s)
    case Some(rung) => LadderRungs(rung);
    case None =>
      NoRungFits(NormalizeResolution(s));
  }

  /**
   A transcode's target is within the source, the device's maximum, the bitrate's and the manual
   cap; both sides are even; and normalizing it again changes nothing. It is empty exactly when
   one of those bounds leaves less than two pixels.
   */
  lemma TargetsFit(media: Media, device: Device, throughput: Option<nat>, config: Config, decision: VideoDecision)
    requires Rank(decision) >= Rank(Transcode)
    ensures var t := TargetResolution(media, device, throughput, config, decision);
            var limit := BitrateLimit(throughput, config);
            && t.Some? && Fits(t.value, media.resolution) && Fits(t.value, device.maxResolution)
            && (limit.Some? ==> Fits(t.value, MaxResolutionFor(limit.value)))
            && (config.mode == Manual && config.manualMax.Some? ==> Fits(t.value, config.manualMax.value))
            && t.value.w % 2 == 0 && t.value.h % 2 == 0 && NormalizeResolution(t.value) == t.value
            && (t.value.w > 0 && t.value.h > 0
                <==> && Fits(Size(2, 2), media.resolution) && Fits(Size(2, 2), device.maxResolution)
                     && (config.mode == Manual && config.manualMax.Some? ==> Fits(Size(2, 2), config.manualMax.value)))
  {
    NormalizedFits(Capped(media, device, throughput, config));
  }

  /** No rung of the ladder, or the first that fits: the ladder spelled out. */
  lemma Ladder(s: Size)
    ensures FirstFitting(LADDER, s)
         == if Fits(Size(3840, 2160), s) then Some(Size(3840, 2160))
            else if Fits(Size(1920, 1080), s) then Some(Size(1920, 1080))
            else if Fits(Size(1280, 720), s) then Some(Size(1280, 720))
            else if Fits(Size(854, 480), s) then Some(Size(854, 480))
            else None
  {
    var d := [Size(854, 480)];
    var c := [Size(1280, 720)] + d;
    var b := [Size(1920, 1080)] + c;
    assert d[1..] == [] && c[1..] == d && b[1..] == c && LADDER[1..] == b;
    assert FirstFitting(d, s) == if Fits(d[0], s) then Some(d[0]) else None;
    assert FirstFitting(c, s) == if Fits(c[0], s) then Some(c[0]) else FirstFitting(d, s);
    assert FirstFitting(b, s) == if Fits(b[0], s) then Some(b[0]) else FirstFitting(c, s);
  }

  /**
   The bounds `s` can be loosened to `t` without losing anything: both are on the ladder or neither
   is, or the rung for `t` still covers what was left of `s`.
   */
  predicate LooseningKeeps(s: Size, t: Size)
  {
    || Fits(Size(854, 480), s)
    || !Fits(Size(854, 480), t)
    || (FirstFitting(LADDER, t).Some? && Fits(Size(s.w / 2 * 2, s.h / 2 * 2), FirstFitting(LADDER, t).value))
  }

  /** Looser bounds give a resolution at least as large on both sides exactly when loosening keeps. */
  lemma LooserBounds(s: Size, t: Size)
    requires Fits(s, t)
    ensures Fits(NormalizeResolution(s), NormalizeResolution(t)) <==> LooseningKeeps(s, t)
  {
    Ladder(s);
    Ladder(t);
  }

  lemma CappedGrows(media: Media, less: Device, more: Device, low: Option<nat>, high: Option<nat>, config: Config)
    requires AcceptsMore(more, less) && ThroughputAtLeast(high, low)
    ensures Fits(Capped(media, less, low, config), Capped(media, more, high, config))
  {
    if config.mode != Maximum && high.Some? {
      LimitGrows(low.value, high.value, config);
    }
  }

  /**
   A device that accepts more, or more throughput, loosens the bounds, and the target is at least
   as large on both sides exactly when loosening keeps.
   */
  lemma LooserTarget(media: Media, less: Device, more: Device, low: Option<nat>, high: Option<nat>, config: Config,
                     decision: VideoDecision)
    requires AcceptsMore(more, less) && ThroughputAtLeast(high, low) && Rank(decision) >= Rank(Transcode)
    ensures var s, t := Capped(media, less, low, config), Capped(media, more, high, config);
            && Fits(s, t)
            && (Fits(TargetResolution(media, less, low, config, decision).value,
                     TargetResolution(media, more, high, config, decision).value)
                <==> LooseningKeeps(s, t))
  {
    CappedGrows(media, less, more, low, high, config);
    LooserBounds(Capped(media, less, low, config), Capped(media, more, high, config));
  }

  /** Landing on the ladder can cost height: one more column of the device's maximum turns 852x2000 into 854x480. */
  lemma LooserTargetCanShrink(media: Media, device: Device, config: Config, decision: VideoDecision)
    requires Fits(Size(854, 2000), media.resolution) && config.mode == Maximum && Rank(decision) >= Rank(Transcode)
    ensures var less, more := device.(maxResolution := Size(853, 2000)), device.(maxResolution := Size(854, 2000));
            && AcceptsMore(more, less)
            && TargetResolution(media, less, None, config, decision) == Some(Size(852, 2000))
            && TargetResolution(media, more, None, config, decision) == Some(Size(854, 480))
  {
    Ladder(Size(853, 2000));
    Ladder(Size(854, 2000));
  }

  // ------------------------------------------- the decision spelled out

  /** The whole bitrate, held within 64 bits. */
  lemma TotalBitrate(media: Media)
    ensures media.videoBitrate + media.audioBitrate <= 0xffff_ffff_ffff_ffff ==>
              EffectiveBitrate(media) == media.videoBitrate + media.audioBitrate
    ensures media.videoBitrate + media.audioBitrate > 0xffff_ffff_ffff_ffff ==>
              EffectiveBitrate(media) == 0xffff_ffff_ffff_ffff
  {
  }

  /** A whole number is above a product cut to a whole number exactly when it is above the product. */
  lemma AboveCut(total: nat, x: real)
    requires 0.0 <= x <= 18446744073709551615.0
    ensures total > ToU64(x) <==> total as real > x
  {
    assert x.Floor as real <= x < (x.Floor + 1) as real;
    if total > x.Floor {
      assert total as real >= (x.Floor + 1) as real;
    }
    assert x.Floor <= U64_MAX;
  }

  /** The stream needs more than the usable part of the estimated throughput. */
  predicate OverEstimate(media: Media, throughput: Option<nat>, config: Config)
  {
    && config.mode != Maximum && throughput.Some?
    && (media.videoBitrate + media.audioBitrate) as real > throughput.value as real * config.safetyFactor
  }

  /** The factor is not negative, and nothing leaves 64 bits. */
  predicate InRange64(media: Media, throughput: Option<nat>, config: Config)
  {
    && media.videoBitrate + media.audioBitrate <= U64_MAX && config.safetyFactor >= 0.0
    && (throughput.Some? ==> throughput.value as real * config.safetyFactor <= 18446744073709551615.0)
  }

  lemma NetworkMeans(media: Media, throughput: Option<nat>, config: Config)
    requires InRange64(media, throughput, config)
    ensures NetworkVerdict(media, throughput, config) == if OverEstimate(media, throughput, config) then Transcode
            else DirectPlay
  {
    if config.mode != Maximum && throughput.Some? {
      RealProducts(0.0, throughput.value as real, config.safetyFactor);
      AboveCut(media.videoBitrate + media.audioBitrate, throughput.value as real * config.safetyFactor);
    }
  }

  /**
   When nothing else stands against playing a stream as it is, it is sent a transcode exactly when
   the mode heeds an estimate and the stream needs more than its usable part.
   */
  lemma EstimateDecides(names: Names, media: Media, device: Device, throughput: Option<nat>, config: Config)
    requires InRange64(media, throughput, config)
    requires FormatVerdict(names, media, device) == DynamicRangeVerdict(names, media, device, config) == DirectPlay
    requires DeviceBitrateVerdict(media, device) == ManualVerdict(media, config) == DirectPlay
    requires ContainerVerdict(names, media, device) == DirectPlay
    ensures var decision := JoinedVerdict(names, media, device, throughput, config);
            && (decision == Transcode
                <==> && config.mode != Maximum && throughput.Some?
                     && (media.videoBitrate + media.audioBitrate) as real
                        > throughput.value as real * config.safetyFactor)
            && (decision == Transcode || decision == DirectPlay)
  {
    NetworkMeans(media, throughput, config);
  }

  /** The device decodes the stream: a known codec on its list, a known depth, and both within its limits. */
  ghost predicate Decodable(names: Names, media: Media, device: Device)
  {
    && names.known(names.codec(media.videoCodec))
    && (exists s :: s in device.videoCodecs && names.codec(s) == names.codec(media.videoCodec))
    && media.bitDepth > 0 && (device.maxBitDepth == 0 || media.bitDepth <= device.maxBitDepth)
    && media.resolution.w <= device.maxResolution.w && media.resolution.h <= device.maxResolution.h
  }

  /** Device, network and user allow as much. */
  predicate Allowed(media: Media, device: Device, throughput: Option<nat>, config: Config)
  {
    && (device.maxBitrate == 0 || media.videoBitrate + media.audioBitrate <= device.maxBitrate)
    && !OverEstimate(media, throughput, config)
    && (config.mode == Manual && config.manualMax.Some? ==>
          media.resolution.w <= config.manualMax.value.w && media.resolution.h <= config.manualMax.value.h)
  }

  /** Every part of the container's name is known and on one of the device's lists. */
  ghost predicate Contained(names: Names, media: Media, device: Device)
  {
    forall part :: part in SplitCommas(media.container) ==>
      && names.known(names.container(part))
      && exists formats, f :: formats in device.containers && f in SplitCommas(formats)
                              && names.container(f) == names.container(part)
  }

  lemma FormatMeans(names: Names, media: Media, device: Device)
    ensures FormatVerdict(names, media, device) == if Decodable(names, media, device) then DirectPlay else Transcode
  {
  }

  lemma LimitMeans(media: Media, device: Device, throughput: Option<nat>, config: Config)
    requires InRange64(media, throughput, config)
    ensures LimitVerdict(media, device, throughput, config)
         == if Allowed(media, device, throughput, config) then DirectPlay else Transcode
  {
    NetworkMeans(media, throughput, config);
  }

  lemma ContainerMeans(names: Names, media: Media, device: Device)
    ensures ContainerVerdict(names, media, device) == if Contained(names, media, device) then DirectPlay else Remux
  {
  }

  /** The decision in terms of the stream, the device, the network and the settings. */
  lemma DecisionMeans(names: Names, media: Media, device: Device, throughput: Option<nat>, config: Config)
    requires InRange64(media, throughput, config)
    ensures var decision := JoinedVerdict(names, media, device, throughput, config);
            var range := DynamicRangeVerdict(names, media, device, config);
            var plain := Decodable(names, media, device) && Allowed(media, device, throughput, config);
            && (decision == ToneMap <==> range == ToneMap)
            && (decision == Transcode <==> range == Transcode || (range != ToneMap && !plain))
            && (decision == Remux
                <==> plain && (range == Remux || (range == DirectPlay && !Contained(names, media, device))))
            && (decision == DirectPlay <==> plain && range == DirectPlay && Contained(names, media, device))
  {
    FormatMeans(names, media, device);
    LimitMeans(media, device, throughput, config);
    ContainerMeans(names, media, device);
  }

  // --------------------------------------------- the parts of the names

  function JoinCommas(parts: seq<string>): string
    requires |parts| > 0
  {
    if |parts| == 1 then parts[0] else parts[0] + "," + JoinCommas(parts[1..])
  }

  /** The parts between commas have none themselves, and joined by commas they are the text again. */
  lemma {:induction false} SplitMeans(s: string)
    ensures JoinCommas(SplitCommas(s)) == s
    ensures forall p :: 0 <= p < |SplitCommas(s)| ==> ',' !in SplitCommas(s)[p]
    decreases |s|
  {
    if s != [] {
      SplitMeans(s[1..]);
      var rest := SplitCommas(s[1..]);
      if s[0] == ',' {
        assert ([[]] + rest)[1..] == rest;
        assert [] + "," + s[1..] == s;
      } else {
        var parts := [[s[0]] + rest[0]] + rest[1..];
        assert parts[1..] == rest[1..];
        if |rest| > 1 {
          assert ([s[0]] + rest[0]) + "," + JoinCommas(rest[1..]) == [s[0]] + (rest[0] + "," + JoinCommas(rest[1..]));
        }
        assert [s[0]] + s[1..] == s;
      }
    }
  }

  // --------------------------------------------------- dynamic range

  /** Streams without Dolby Vision, by the trimmed and lower-cased name of their range. */
  lemma PlainRangeMeans(names: Names, media: Media, device: Device, config: Config, range: string)
    requires range == AsciiLower(Trim(media.dynamicRange)) && media.dvProfile == None && !("dolby_vision" <= range)
    ensures range == "sdr" ==> DynamicRangeVerdict(names, media, device, config) == DirectPlay
    ensures range == "hdr10" || range == "hdr10_plus" || range == "hdr10+" || range == "hlg" ==>
              DynamicRangeVerdict(names, media, device, config)
              == if HdrSupported(names, range, device.hdrFormats) then DirectPlay else ToneMap
    ensures range !in ["sdr", "hdr10", "hdr10_plus", "hdr10+", "hlg"] ==>
              DynamicRangeVerdict(names, media, device, config) == Transcode
  {
  }

  /** Streams with Dolby Vision: played by devices that know it, else by a usable base layer, else mapped. */
  lemma DolbyVisionMeans(names: Names, media: Media, device: Device, config: Config)
    requires media.dvProfile.Some? || "dolby_vision" <= AsciiLower(Trim(media.dynamicRange))
    ensures device.supportsDolbyVision ==> DynamicRangeVerdict(names, media, device, config) == DirectPlay
    ensures !device.supportsDolbyVision && !HasUsableBase(names, media, device) ==>
              DynamicRangeVerdict(names, media, device, config) == ToneMap
    ensures !device.supportsDolbyVision && HasUsableBase(names, media, device) ==>
              DynamicRangeVerdict(names, media, device, config)
              == if config.allowClientSideFallback && device.allowClientSideFallback then DirectPlay else Remux
  {
  }

  /** The base layer that a stream declares, if that is one that is known, is usable when the device supports it. */
  lemma DeclaredBaseMeans(names: Names, media: Media, device: Device, base: string)
    requires media.dvProfile == Some(7) || media.dvProfile == Some(8)
    requires media.dvCompatibility == Some(base) && (base == "hdr10" || base == "hlg" || base == "sdr")
    ensures HasUsableBase(names, media, device) <==> HdrSupported(names, base, device.hdrFormats)
  {
  }

  /** Without one the name of the range decides, then the profile: the seventh has an HDR10 layer. */
  lemma ImpliedBaseMeans(names: Names, media: Media, device: Device)
    requires media.dvProfile == Some(7) || media.dvProfile == Some(8)
    requires media.dvCompatibility !in [Some("hdr10"), Some("hlg"), Some("sdr")]
    ensures var range := AsciiLower(Trim(media.dynamicRange));
            HasUsableBase(names, media, device)
            <==> (range == "dolby_vision_p8.1" && HdrSupported(names, "hdr10", device.hdrFormats))
                 || (range == "dolby_vision_p8.4" && HdrSupported(names, "hlg", device.hdrFormats))
                 || (range != "dolby_vision_p8.1" && range != "dolby_vision_p8.4" && media.dvProfile == Some(7)
                     && HdrSupported(names, "hdr10", device.hdrFormats))
  {
    assert "dolby_vision_p8.1"[16] != "dolby_vision_p8.4"[16];
  }

  /** No other profile has a usable base; profiles are read in 32 bits. */
  lemma OtherProfiles(names: Names, media: Media, device: Device, p: nat)
    requires media.dvProfile == Some(p)
    ensures p % 4294967296 != 7 && p % 4294967296 != 8 ==> !HasUsableBase(names, media, device)
    ensures HasUsableBase(names, media, device)
         == HasUsableBase(names, media.(dvProfile := Some(p % 4294967296)), device)
  {
  }

  /** Standard range is always supported, and any other one that the device lists under some name. */
  lemma HdrMeans(names: Names, range: string, supported: set<string>)
    ensures names.hdr(range) == "sdr" ==> HdrSupported(names, range, supported)
    ensures names.hdr(range) != "sdr" ==>
              (HdrSupported(names, range, supported)
               <==> exists s :: s in supported && names.hdr(s) == names.hdr(range))
  {
  }

  // ------------------------------------------------------- the largest target

  /** What the estimated throughput has room for. */
  function RoomFor(usable: real): Size
  {
    if usable >= 5_000_000.0 then Size(1920, 1080)
    else if usable >= 2_000_000.0 then Size(1280, 720)
    else Size(854, 480)
  }

  lemma RoomMeans(x: real)
    requires 0.0 <= x <= 18446744073709551615.0
    ensures MaxResolutionFor(ToU64(x)) == RoomFor(x)
  {
    assert x.Floor as real <= x < (x.Floor + 1) as real;
  }

  /** The bounds of a target leave exactly what source, device, throughput and user all leave. */
  lemma CappedIsGreatest(media: Media, device: Device, throughput: Option<nat>, config: Config, s: Size)
    requires InRange64(media, throughput, config)
    ensures Fits(s, Capped(media, device, throughput, config))
       <==> && Fits(s, media.resolution) && Fits(s, device.maxResolution)
            && (config.mode != Maximum && throughput.Some? ==>
                  Fits(s, RoomFor(throughput.value as real * config.safetyFactor)))
            && (config.mode == Manual && config.manualMax.Some? ==> Fits(s, config.manualMax.value))
  {
    if config.mode != Maximum && throughput.Some? {
      RealProducts(0.0, throughput.value as real, config.safetyFactor);
      RoomMeans(throughput.value as real * config.safetyFactor);
    }
  }
}
