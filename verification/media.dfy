/** The media-kind dispatch of `renderItem`: from one catalog descriptor to
    the element the lightbox shows for it (an image, a video embed or an
    audio player). */
module Media {
  import opened Wrappers

  /** One entry of the gallery's item list. An absent property is `None`. */
  datatype Descriptor = Descriptor(
    thumb: Option<string>,
    img: Option<string>,
    youtube: Option<string>,
    vimeo: Option<string>,
    videoWidth: Option<nat>,
    videoHeight: Option<nat>,
    mpeg: Option<string>,
    ogg: Option<string>)

  datatype Site = YouTube | Vimeo

  datatype AudioFormat = Mpeg | Ogg

  /** A `<source>` child of an audio element. */
  datatype Source = Source(src: string, mime: string)

  /** The element built for the lightbox. */
  datatype Content =
    | Image(src: string)
    | Video(src: string, width: Option<nat>, height: Option<nat>)
    | Audio(sources: seq<Source>)

  /** The gallery's table of embed base links, one per video site. */
  function BaseLink(site: Site): string
  {
    match site
    case YouTube => "http://www.youtube.com/embed/"
    case Vimeo => "http://player.vimeo.com/video/"
  }

  function EmbedUrl(site: Site, code: string): string
  {
    BaseLink(site) + code
  }

  /** Recovers the site and the video code from an embed address. */
  function ParseEmbed(url: string): (r: Option<(Site, string)>)
    ensures r.Some? ==> EmbedUrl(r.value.0, r.value.1) == url
  {
    var yt := BaseLink(YouTube);
    var vm := BaseLink(Vimeo);
    if yt <= url then Some((YouTube, url[|yt|..]))
    else if vm <= url then Some((Vimeo, url[|vm|..]))
    else None
  }

  lemma EmbedRoundTrip(site: Site, code: string)
    ensures ParseEmbed(EmbedUrl(site, code)) == Some((site, code))
  {
    var url := EmbedUrl(site, code);
    assert BaseLink(site) <= url;
    if site == Vimeo {
      assert url[7] == 'p';
      assert !(BaseLink(YouTube) <= url);
    }
  }

  /** MooTools' `typeOf` applied to an optional string property. */
  function TypeOf(o: Option<string>): string
  {
    if o.None? then "null" else "string"
  }

  /** JavaScript's loose `v != null` for a string `v`: no string is loosely
      equal to `null`, so this is true of every argument. */
  function StringIsNotNull(v: string): bool
  {
    true
  }

  function FormatName(f: AudioFormat): string
  {
    match f
    case Mpeg => "mpeg"
    case Ogg => "ogg"
  }

  function Field(d: Descriptor, f: AudioFormat): Option<string>
  {
    match f
    case Mpeg => d.mpeg
    case Ogg => d.ogg
  }

  /** The `<source>` element built for format `f`: one when the descriptor
      has that property, none otherwise. */
  function SourceFor(d: Descriptor, f: AudioFormat): (r: seq<Source>)
    ensures |r| <= 1
    ensures |r| == 1 <==> Field(d, f).Some?
    ensures |r| == 1 ==> r[0].src == Field(d, f).value && r[0].mime == "audio/" + FormatName(f)
  {
    match Field(d, f)
    case Some(src) => [Source(src, "audio/" + FormatName(f))]
    case None => []
  }

  /** The formats the audio loop visits, in loop order. */
  const AudioFormats: seq<AudioFormat> := [Mpeg, Ogg]

  /** The sources of `formats`, in the order the formats are listed. */
  function Listed(d: Descriptor, formats: seq<AudioFormat>): seq<Source>
  {
    if formats == [] then [] else SourceFor(d, formats[0]) + Listed(d, formats[1..])
  }

  /** The audio loop: every present format is injected at the TOP of the
      element's current children. */
  function InjectAtTop(children: seq<Source>, d: Descriptor, formats: seq<AudioFormat>): (r: seq<Source>)
    ensures |r| == |Listed(d, formats)| + |children|
    decreases |formats|
  {
    if formats == [] then children
    else InjectAtTop(SourceFor(d, formats[0]) + children, d, formats[1..])
  }

  function Reverse<T>(s: seq<T>): (r: seq<T>)
    ensures |r| == |s|
    ensures forall i :: 0 <= i < |s| ==> r[i] == s[|s| - 1 - i]
  {
    if s == [] then [] else Reverse(s[1..]) + [s[0]]
  }

  lemma {:induction false} ReverseAppend<T>(a: seq<T>, b: seq<T>)
    ensures Reverse(a + b) == Reverse(b) + Reverse(a)
  {
    var l, r := Reverse(a + b), Reverse(b) + Reverse(a);
    assert |l| == |r|;
    forall i | 0 <= i < |l|
      ensures l[i] == r[i]
    {
      if i < |b| {
        assert r[i] == Reverse(b)[i] == b[|b| - 1 - i];
      } else {
        assert r[i] == Reverse(a)[i - |b|] == a[|a| - 1 - (i - |b|)];
      }
    }
  }

  lemma ReverseShort<T>(s: seq<T>)
    requires |s| <= 1
    ensures Reverse(s) == s
  {
  }

  /** Prepending the sources one by one reverses their listed order. */
  lemma {:induction false} InjectAtTopReverses(children: seq<Source>, d: Descriptor, formats: seq<AudioFormat>)
    ensures InjectAtTop(children, d, formats) == Reverse(Listed(d, formats)) + children
    decreases |formats|
  {
    if formats != [] {
      var head := SourceFor(d, formats[0]);
      var rest := Listed(d, formats[1..]);
      InjectAtTopReverses(head + children, d, formats[1..]);
      ReverseAppend(head, rest);
      ReverseShort(head);
      calc {
        InjectAtTop(children, d, formats);
        InjectAtTop(head + children, d, formats[1..]);
        Reverse(rest) + (head + children);
        (Reverse(rest) + head) + children;
        Reverse(head + rest) + children;
      }
    }
  }

  /** The element `renderItem` builds for a descriptor: an image wins over a
      YouTube video, which wins over a Vimeo video; every other descriptor
      becomes an audio element, because the audio guard compares a type name
      with `null` and can never be false. */
  function MediaItem(d: Descriptor): (c: Content)
    ensures c.Image? <==> d.img.Some?
    ensures c.Image? ==> c.src == d.img.value
    ensures c.Video? <==> d.img.None? && (d.youtube.Some? || d.vimeo.Some?)
    ensures c.Video? ==> c.width == d.videoWidth && c.height == d.videoHeight
    ensures c.Video? && d.youtube.Some? ==> ParseEmbed(c.src) == Some((YouTube, d.youtube.value))
    ensures c.Video? && d.youtube.None? ==> ParseEmbed(c.src) == Some((Vimeo, d.vimeo.value))
    ensures c.Audio? <==> d.img.None? && d.youtube.None? && d.vimeo.None?
    ensures c.Audio? ==> c.sources == SourceFor(d, Ogg) + SourceFor(d, Mpeg)
  {
    if TypeOf(d.img) != "null" then
      Image(d.img.value)
    else if TypeOf(d.youtube) != "null" || TypeOf(d.vimeo) != "null" then
      var site := if TypeOf(d.youtube) != "null" then YouTube else Vimeo;
      var code := if site == YouTube then d.youtube.value else d.vimeo.value;
      EmbedRoundTrip(site, code);
      Video(EmbedUrl(site, code), d.videoWidth, d.videoHeight)
    else if TypeOf(d.mpeg) != "null" || StringIsNotNull(TypeOf(d.ogg)) then
      InjectAtTopReverses([], d, AudioFormats);
      assert Listed(d, AudioFormats) == SourceFor(d, Mpeg) + SourceFor(d, Ogg);
      ReverseAppend(SourceFor(d, Mpeg), SourceFor(d, Ogg));
      Audio(InjectAtTop([], d, AudioFormats))
    else
      Audio([])
  }

  /** A descriptor with no image and no video code is rendered as audio,
      even when it names no audio file at all. */
  lemma AudioFallback(d: Descriptor)
    requires d.img.None? && d.youtube.None? && d.vimeo.None?
    ensures MediaItem(d).Audio?
    ensures d.mpeg.None? && d.ogg.None? ==> MediaItem(d).sources == []
  {
  }

  /** When both audio files are given, the ogg source ends up first. */
  lemma AudioOrder(d: Descriptor)
    requires d.img.None? && d.youtube.None? && d.vimeo.None?
    requires d.mpeg.Some? && d.ogg.Some?
    ensures MediaItem(d).sources == [Source(d.ogg.value, "audio/ogg"), Source(d.mpeg.value, "audio/mpeg")]
  {
    assert "audio/" + FormatName(Ogg) == "audio/ogg";
    assert "audio/" + FormatName(Mpeg) == "audio/mpeg";
  }
}
