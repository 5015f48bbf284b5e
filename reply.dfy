/**
  Post-processing of the language model's raw answer in `ask_groq`: the text
  before the first `IMAGE:` marker becomes the reply, and the first word
  after it becomes the image link when that part starts with `http`.
 */
module ReplyParser {
  import opened Wrappers
  import opened PyStr

  const Marker: string := "IMAGE:"
  const UrlScheme: string := "http"

  /** What `ask_groq` returns: the text to send and, maybe, an image link. */
  datatype Reply = Reply(text: string, image: Option<string>)

  /**
    `reply_text, image_url` computed from `full_response`. Without a marker the
    raw answer is passed on untouched; the image link is the first
    whitespace-separated token of the stripped part between the first and
    second marker, kept only when that part starts with `http`.
   */
  function ExtractImage(full: string): (r: Reply)
    ensures !Contains(full, Marker) ==> r == Reply(full, None)
    ensures r.image.Some? ==> Contains(full, Marker) && r.image.value != []
  {
    if Contains(full, Marker) then
      var parts := Split(full, Marker);
      Reply(Strip(parts[0]), LinkCandidate(parts))
    else
      Reply(full, None)
  }

  /**
    The `if len(parts) > 1` block: the first word of the stripped second
    part, when that part starts with `http`.
   */
  function LinkCandidate(parts: seq<string>): (url: Option<string>)
    ensures url.Some? <==> |parts| > 1 && StartsWith(Strip(parts[1]), UrlScheme)
    ensures url.Some? ==> url.value != []
  {
    if |parts| > 1 then
      var potentialUrl := Strip(parts[1]);
      if StartsWith(potentialUrl, UrlScheme) then
        assert potentialUrl[0] == 'h';
        FirstWord(potentialUrl);
        Some(Words(potentialUrl)[0])
      else
        None
    else
      None
  }

  /** Index of the first marker in a reply that has one. */
  function FirstMarker(full: string): (i: nat)
    requires Contains(full, Marker)
    ensures OccursAt(full, Marker, i)
    ensures forall j :: 0 <= j < i ==> !OccursAt(full, Marker, j)
  {
    Find(full, Marker).value
  }

  /**
    The text between the first marker and the second (or the end), defined
    by searching rather than splitting: the reference for `parts[1]`. It
    starts right after the first marker, holds no marker, and is followed by
    a marker or by the end of the answer.
   */
  function Segment(full: string): (seg: string)
    requires Contains(full, Marker)
    ensures OccursAt(full, seg, FirstMarker(full) + |Marker|)
    ensures !Contains(seg, Marker)
    ensures || FirstMarker(full) + |Marker| + |seg| == |full|
            || OccursAt(full, Marker, FirstMarker(full) + |Marker| + |seg|)
  {
    var start := FirstMarker(full) + |Marker|;
    var rest := full[start..];
    match Find(rest, Marker)
    case None => rest
    case Some(j) =>
      assert rest[..j] == full[start..start + j];
      BeforeFirstAvoids(rest, Marker, j);
      assert OccursAt(full, rest, start);
      OccursAtTrans(full, rest, Marker, start, j);
      rest[..j]
  }

  /** `parts[0]` and `parts[1]` of `full.split("IMAGE:")` are the prefix and `Segment`. */
  lemma SplitAtMarker(full: string)
    requires Contains(full, Marker)
    ensures |Split(full, Marker)| >= 2
    ensures Split(full, Marker)[0] == full[..FirstMarker(full)]
    ensures Split(full, Marker)[1] == Segment(full)
  {
    var i := FirstMarker(full);
    var rest := full[i + |Marker|..];
    assert Split(full, Marker) == [full[..i]] + Split(rest, Marker);
  }

  /**
    With a marker, the reply text is the stripped text before the first
    marker: it holds no marker and nothing that follows the marker.
   */
  lemma TextPrecedesMarker(full: string)
    requires Contains(full, Marker)
    ensures ExtractImage(full).text == Strip(full[..FirstMarker(full)])
    ensures !Contains(ExtractImage(full).text, Marker)
    ensures OccursAt(full, ExtractImage(full).text, StripOffset(full[..FirstMarker(full)]))
  {
    MarkerText(full);
    StrippedPrefix(full, FirstMarker(full));
  }

  /** With a marker, the reply text is `parts[0].strip()`, with `parts[0]` the text before the first marker. */
  lemma MarkerText(full: string)
    requires Contains(full, Marker)
    ensures ExtractImage(full).text == Strip(full[..FirstMarker(full)])
  {
    assert Split(full, Marker)[0] == full[..FirstMarker(full)];
  }

  /** The stripped text before the first marker is a marker-free slice of the answer. */
  lemma StrippedPrefix(full: string, i: nat)
    requires Find(full, Marker) == Some(i)
    ensures !Contains(Strip(full[..i]), Marker)
    ensures OccursAt(full, Strip(full[..i]), StripOffset(full[..i]))
  {
    var head := full[..i];
    var t := Strip(head);
    BeforeFirstAvoids(full, Marker, i);
    assert OccursAt(full, head, 0);
    OccursAtTrans(full, head, t, 0, StripOffset(head));
    SliceAvoids(head, t, StripOffset(head), Marker);
  }

  /**
    An image link is produced exactly when there is a marker and the
    stripped segment after the first one starts with `http`.
   */
  lemma ImageIffHttpSegment(full: string)
    ensures ExtractImage(full).image.Some?
      <==> Contains(full, Marker) && StartsWith(Strip(Segment(full)), UrlScheme)
  {
    if Contains(full, Marker) {
      SplitAtMarker(full);
    }
  }

  /**
    A produced image link is non-empty, free of whitespace, starts with
    `http`, is the first word of the stripped segment, holds no marker and
    is a slice of the raw answer.
   */
  lemma ImageUrlShape(full: string)
    requires ExtractImage(full).image.Some?
    ensures var url := ExtractImage(full).image.value;
      && url != [] && NoSpace(url)
      && StartsWith(url, UrlScheme)
      && StartsWith(Strip(Segment(full)), url)
      && (|url| == |Strip(Segment(full))| || IsSpace(Strip(Segment(full))[|url|]))
      && |Words(Strip(Segment(full)))| >= 1 && url == Words(Strip(Segment(full)))[0]
      && !Contains(url, Marker)
      && exists lo :: OccursAt(full, url, lo)
  {
    ImageIsFirstWord(full);
    SegmentUrlShape(full);
  }

  /** The first word of an `http` segment has the shape `ImageUrlShape` states. */
  lemma SegmentUrlShape(full: string)
    requires Contains(full, Marker) && StartsWith(Strip(Segment(full)), UrlScheme)
    ensures |Words(Strip(Segment(full)))| >= 1
    ensures var url := Words(Strip(Segment(full)))[0];
      && url != [] && NoSpace(url)
      && StartsWith(url, UrlScheme)
      && StartsWith(Strip(Segment(full)), url)
      && (|url| == |Strip(Segment(full))| || IsSpace(Strip(Segment(full))[|url|]))
      && !Contains(url, Marker)
      && exists lo :: OccursAt(full, url, lo)
  {
    var seg := Segment(full);
    var p := Strip(seg);
    HttpWordShape(p);
    NestedSlice(full, seg, p, Words(p)[0], FirstMarker(full) + |Marker|, StripOffset(seg));
  }

  /** The first word of a text starting with `http` is a non-empty, blank-free `http` prefix of it. */
  lemma HttpWordShape(p: string)
    requires StartsWith(p, UrlScheme)
    ensures |Words(p)| >= 1
    ensures var url := Words(p)[0];
      && url != [] && NoSpace(url) && StartsWith(url, UrlScheme) && StartsWith(p, url)
      && (|url| == |p| || IsSpace(p[|url|]))
  {
    SchemeHasNoSpace();
    FirstWordKeepsPrefix(p, UrlScheme);
    WordsShape(p);
    assert p[0] == UrlScheme[0];
    FirstWord(p);
  }

  /** A prefix of a slice of a marker-free slice is marker-free and a slice of the whole. */
  lemma NestedSlice(full: string, seg: string, p: string, url: string, a: int, b: int)
    requires OccursAt(full, seg, a) && OccursAt(seg, p, b) && StartsWith(p, url)
    requires !Contains(seg, Marker)
    ensures !Contains(url, Marker) && exists lo :: OccursAt(full, url, lo)
  {
    assert OccursAt(p, url, 0);
    OccursAtTrans(seg, p, url, b, 0);
    SliceAvoids(seg, url, b, Marker);
    OccursAtTrans(full, seg, url, a, b);
  }

  /** When a link is produced it is the first word of the stripped segment. */
  lemma ImageIsFirstWord(full: string)
    requires ExtractImage(full).image.Some?
    ensures Contains(full, Marker)
    ensures StartsWith(Strip(Segment(full)), UrlScheme)
    ensures |Words(Strip(Segment(full)))| >= 1
    ensures ExtractImage(full).image == Some(Words(Strip(Segment(full)))[0])
  {
    SplitAtMarker(full);
  }

  lemma SchemeHasNoSpace()
    ensures UrlScheme != [] && NoSpace(UrlScheme)
  {
    assert UrlScheme == ['h', 't', 't', 'p'];
  }
}
