/** What was printed for the tracks of a video section is read back as the same tracks, and
    exactly when. */
module SdpRoundTrip {
  import opened Basics
  import opened SdpText
  import opened SdpTracks
  import opened SdpLines
  import opened SdpSurvival

  // ---------- The four lines of an ssrc ----------

  /** The four lines of an ssrc add what is known of it. */
  lemma SsrcBlock(s: State, t: StreamParams, ssrc: U32)
    requires TrackSurvives(t) && s.media == "video" && NotIn(s.video, ssrc)
    ensures ParseLines(s, LinesOfSsrc(t, ssrc)) ==
            Some(s.(video := s.video + [SsrcInfo(ssrc, t.cname, t.streamId, t.id)]))
  {
    var lines, v := LinesOfSsrc(t, ssrc), s.video;
    var i1, i4 := SsrcInfo(ssrc, t.cname, "", ""), SsrcInfo(ssrc, t.cname, t.streamId, t.id);
    SsrcLineParses(s, ssrc, "cname", t.cname);
    AssignFirst(v, ssrc, t.cname);
    var msid := t.streamId + " " + t.id;
    MsidReads(t.streamId, t.id);
    SsrcLineParses(s.(video := v + [i1]), ssrc, "msid", msid);
    AssignLast(v, i1, "msid", msid);
    SsrcLineParses(s.(video := v + [i4]), ssrc, "mslabel", t.streamId);
    AssignLast(v, i4, "mslabel", SkipLeading(t.streamId, ':'));
    SsrcLineParses(s.(video := v + [i4]), ssrc, "lable", t.id);
    AssignLast(v, i4, "lable", SkipLeading(t.id, ':'));
    FourLines(s, lines, s.(video := v + [i1]), s.(video := v + [i4]));
  }

  lemma FourLines(s: State, lines: seq<string>, s1: State, s2: State)
    requires |lines| == 4
    requires ParseLine(s, lines[0]) == Some(s1) && ParseLine(s1, lines[1]) == Some(s2)
    requires ParseLine(s2, lines[2]) == Some(s2) && ParseLine(s2, lines[3]) == Some(s2)
    ensures ParseLines(s, lines) == Some(s2)
  {
    assert lines[..4] == lines && lines[..3][..2] == lines[..2] && lines[..2][..1] == lines[..1] && lines[..1][..0] == [];
    assert ParseLines(s, lines[..1]) == Some(s1);
    assert ParseLines(s, lines[..2]) == Some(s2);
    assert ParseLines(s, lines[..3]) == Some(s2);
  }

  lemma {:induction false} ParseLinesConcat(s: State, a: seq<string>, b: seq<string>)
    ensures ParseLines(s, a + b) ==
            if ParseLines(s, a).None? then None else ParseLines(ParseLines(s, a).value, b)
  {
    if b == [] {
      assert a + b == a;
    } else {
      assert (a + b)[..|a + b| - 1] == a + b[..|b| - 1];
      ParseLinesConcat(s, a, b[..|b| - 1]);
    }
  }

  lemma Then(s: State, a: seq<string>, s1: State, b: seq<string>, s2: State)
    requires ParseLines(s, a) == Some(s1) && ParseLines(s1, b) == Some(s2)
    ensures ParseLines(s, a + b) == Some(s2)
  {
    ParseLinesConcat(s, a, b);
  }

  lemma ThenOne(s: State, lines: seq<string>, s1: State, line: string, s2: State)
    requires ParseLines(s, lines) == Some(s1) && ParseLine(s1, line) == Some(s2)
    ensures ParseLines(s, lines + [line]) == Some(s2)
  {
    assert (lines + [line])[..|lines|] == lines;
  }

  // ---------- A track ----------

  function TrackInfos(t: StreamParams, ssrcs: seq<U32>): (infos: seq<SsrcInfo>)
    ensures |infos| == |ssrcs|
  {
    seq(|ssrcs|, i requires 0 <= i < |ssrcs| => SsrcInfo(ssrcs[i], t.cname, t.streamId, t.id))
  }

  lemma {:induction false} SsrcLinesRead(s: State, t: StreamParams, n: nat)
    requires GoodTrack(t) && TrackSurvives(t) && s.media == "video" && n <= |t.ssrcs|
    requires forall x :: x in t.ssrcs ==> NotIn(s.video, x)
    ensures ParseLines(s, SsrcLines(t, t.ssrcs[..n])) == Some(s.(video := s.video + TrackInfos(t, t.ssrcs[..n])))
  {
    var ssrcs := t.ssrcs[..n];
    if n == 0 {
      assert s.video + TrackInfos(t, ssrcs) == s.video;
    } else {
      SsrcLinesRead(s, t, n - 1);
      var before, ssrc := t.ssrcs[..n - 1], t.ssrcs[n - 1];
      assert ssrcs[..n - 1] == before;
      var s' := s.(video := s.video + TrackInfos(t, before));
      NextIsNew(s.video, t, n - 1);
      SsrcBlock(s', t, ssrc);
      TrackInfosSnoc(s.video, t, ssrcs);
      Then(s, SsrcLines(t, before), s', LinesOfSsrc(t, ssrc), s.(video := s.video + TrackInfos(t, ssrcs)));
    }
  }

  lemma NextIsNew(infos: seq<SsrcInfo>, t: StreamParams, n: nat)
    requires GoodTrack(t) && n < |t.ssrcs| && NotIn(infos, t.ssrcs[n])
    ensures NotIn(infos + TrackInfos(t, t.ssrcs[..n]), t.ssrcs[n])
  {
  }

  lemma TrackInfosSnoc(infos: seq<SsrcInfo>, t: StreamParams, ssrcs: seq<U32>)
    requires ssrcs != []
    ensures infos + TrackInfos(t, ssrcs) ==
            infos + TrackInfos(t, ssrcs[..|ssrcs| - 1]) + [SsrcInfo(ssrcs[|ssrcs| - 1], t.cname, t.streamId, t.id)]
  {
  }

  // ---------- The groups of a track ----------

  predicate Readable(g: SsrcGroup) {
    SemanticsSurvive(g.semantics) && g.ssrcs != []
  }

  lemma {:induction false} GroupLinesRead(s: State, groups: seq<SsrcGroup>)
    requires (forall g :: g in groups ==> Readable(g)) && s.media == "video"
    ensures ParseLines(s, GroupLines(groups)) == Some(s.(groups := s.groups + groups))
  {
    if groups == [] {
      assert s.groups + groups == s.groups;
    } else {
      GroupLinesRead(s, groups[..|groups| - 1]);
      assert groups[|groups| - 1] in groups;
      LastGroupReads(s, groups);
    }
  }

  lemma LastGroupReads(s: State, groups: seq<SsrcGroup>)
    requires s.media == "video" && groups != [] && Readable(groups[|groups| - 1])
    requires var before := groups[..|groups| - 1];
             ParseLines(s, GroupLines(before)) == Some(s.(groups := s.groups + before))
    ensures ParseLines(s, GroupLines(groups)) == Some(s.(groups := s.groups + groups))
  {
    var before, g := groups[..|groups| - 1], groups[|groups| - 1];
    var s' := s.(groups := s.groups + before);
    GroupLinesSnoc(groups);
    GroupLineReads(s', g);
    AppendLast(s.groups, groups);
    ThenOne(s, GroupLines(before), s', GroupLine(g), s.(groups := s.groups + groups));
  }

  lemma AppendLast<T>(a: seq<T>, b: seq<T>)
    requires b != []
    ensures a + b[..|b| - 1] + [b[|b| - 1]] == a + b
  {
  }

  lemma GroupLinesSnoc(groups: seq<SsrcGroup>)
    requires groups != [] && groups[|groups| - 1].ssrcs != []
    ensures GroupLines(groups) == GroupLines(groups[..|groups| - 1]) + [GroupLine(groups[|groups| - 1])]
  {
  }

  // ---------- All tracks ----------

  function Infos(tracks: seq<StreamParams>): seq<SsrcInfo> {
    if tracks == [] then []
    else
      var last := tracks[|tracks| - 1];
      Infos(tracks[..|tracks| - 1]) + TrackInfos(last, last.ssrcs)
  }

  function Groups(tracks: seq<StreamParams>): seq<SsrcGroup> {
    if tracks == [] then [] else Groups(tracks[..|tracks| - 1]) + tracks[|tracks| - 1].ssrcGroups
  }

  lemma {:induction false} InfosAreOf(tracks: seq<StreamParams>, ssrc: U32)
    requires forall t :: t in tracks ==> ssrc !in t.ssrcs
    ensures NotIn(Infos(tracks), ssrc)
  {
    if tracks != [] {
      InfosAreOf(tracks[..|tracks| - 1], ssrc);
    }
  }

  lemma TrackReads(s: State, t: StreamParams)
    requires GoodTrack(t) && TrackSurvives(t) && s.media == "video"
    requires forall x :: x in t.ssrcs ==> NotIn(s.video, x)
    ensures ParseLines(s, TrackLines(t)) ==
            Some(s.(video := s.video + TrackInfos(t, t.ssrcs), groups := s.groups + t.ssrcGroups))
  {
    var s1 := s.(groups := s.groups + t.ssrcGroups);
    TrackGroupsRead(s, t);
    TrackSsrcsRead(s1, t);
    Then(s, GroupLines(t.ssrcGroups), s1, SsrcLines(t, t.ssrcs), s1.(video := s.video + TrackInfos(t, t.ssrcs)));
  }

  lemma TrackGroupsRead(s: State, t: StreamParams)
    requires GoodTrack(t) && TrackSurvives(t) && s.media == "video"
    ensures ParseLines(s, GroupLines(t.ssrcGroups)) == Some(s.(groups := s.groups + t.ssrcGroups))
  {
    assert forall g :: g in t.ssrcGroups ==> GoodGroup(g, t);
    GroupLinesRead(s, t.ssrcGroups);
  }

  lemma TrackSsrcsRead(s: State, t: StreamParams)
    requires GoodTrack(t) && TrackSurvives(t) && s.media == "video"
    requires forall x :: x in t.ssrcs ==> NotIn(s.video, x)
    ensures ParseLines(s, SsrcLines(t, t.ssrcs)) == Some(s.(video := s.video + TrackInfos(t, t.ssrcs)))
  {
    assert t.ssrcs[..|t.ssrcs|] == t.ssrcs;
    SsrcLinesRead(s, t, |t.ssrcs|);
  }

  /** All lines read, in a section without tracks so far. */
  lemma {:induction false} LinesRead(s: State, tracks: seq<StreamParams>)
    requires GoodTracks(tracks) && (forall t :: t in tracks ==> TrackSurvives(t))
    requires s.media == "video" && s.video == [] && s.groups == []
    ensures ParseLines(s, Lines(tracks)) == Some(s.(video := Infos(tracks), groups := Groups(tracks)))
  {
    if tracks != [] {
      var n := |tracks| - 1;
      var before, t := tracks[..n], tracks[n];
      LinesRead(s, before);
      var s' := s.(video := Infos(before), groups := Groups(before));
      forall x | x in t.ssrcs ensures NotIn(s'.video, x) {
        InfosAreOf(before, x);
      }
      TrackReads(s', t);
      Then(s, Lines(before), s', TrackLines(t), s.(video := Infos(tracks), groups := Groups(tracks)));
    }
  }

  // ---------- Putting the tracks together ----------

  function Bare(t: StreamParams): StreamParams {
    t.(ssrcGroups := [])
  }

  lemma AddNewTrack(tracks: seq<StreamParams>, info: SsrcInfo)
    requires forall t :: t in tracks ==> t.id != info.trackId
    ensures AddToTrack(tracks, info) ==
            tracks + [StreamParams(info.trackId, [info.ssrcId], [], info.cname, info.streamId)]
  {
    assert FindTrack(tracks, info.trackId) == |tracks|;
    var empty := StreamParams(info.trackId, [], [], "", "");
    var full := StreamParams(info.trackId, [info.ssrcId], [], info.cname, info.streamId);
    assert [] + [info.ssrcId] == [info.ssrcId];
    assert (tracks + [empty])[|tracks| := full] == tracks + [full];
  }

  lemma AddToLastTrack(tracks: seq<StreamParams>, t: StreamParams, ssrc: U32)
    requires forall u :: u in tracks ==> u.id != t.id
    ensures AddToTrack(tracks + [t], SsrcInfo(ssrc, t.cname, t.streamId, t.id)) == tracks + [t.(ssrcs := t.ssrcs + [ssrc])]
  {
    var all := tracks + [t];
    assert all[|tracks|] == t;
    assert forall j :: 0 <= j < |tracks| ==> all[j] == tracks[j] && tracks[j] in tracks;
    assert FindTrack(all, t.id) == |tracks|;
  }

  lemma {:induction false} TrackCreated(tracks: seq<StreamParams>, t: StreamParams, n: nat)
    requires (forall u :: u in tracks ==> u.id != t.id) && 0 < n <= |t.ssrcs|
    ensures CreateTracks(TrackInfos(t, t.ssrcs[..n]), tracks) == tracks + [Bare(t).(ssrcs := t.ssrcs[..n])]
  {
    var infos, info := TrackInfos(t, t.ssrcs[..n]), SsrcInfo(t.ssrcs[n - 1], t.cname, t.streamId, t.id);
    assert infos[..n - 1] == TrackInfos(t, t.ssrcs[..n - 1]) && infos[n - 1] == info;
    if n == 1 {
      assert infos[..0] == [];
      AddNewTrack(tracks, info);
      assert t.ssrcs[..1] == [t.ssrcs[0]];
    } else {
      TrackCreated(tracks, t, n - 1);
      AddToLastTrack(tracks, Bare(t).(ssrcs := t.ssrcs[..n - 1]), t.ssrcs[n - 1]);
      assert t.ssrcs[..n - 1] + [t.ssrcs[n - 1]] == t.ssrcs[..n];
    }
  }

  lemma {:induction false} CreateTracksConcat(a: seq<SsrcInfo>, b: seq<SsrcInfo>, tracks: seq<StreamParams>)
    ensures CreateTracks(a + b, tracks) == CreateTracks(b, CreateTracks(a, tracks))
  {
    if b == [] {
      assert a + b == a;
    } else {
      assert (a + b)[..|a + b| - 1] == a + b[..|b| - 1];
      CreateTracksConcat(a, b[..|b| - 1], tracks);
    }
  }

  function BareAll(tracks: seq<StreamParams>): (r: seq<StreamParams>)
    ensures |r| == |tracks|
  {
    seq(|tracks|, i requires 0 <= i < |tracks| => Bare(tracks[i]))
  }

  /** The tracks come out in order, without their groups. */
  lemma {:induction false} TracksCreated(tracks: seq<StreamParams>)
    requires GoodTracks(tracks)
    ensures CreateTracks(Infos(tracks), []) == BareAll(tracks)
  {
    if tracks != [] {
      var before, t := tracks[..|tracks| - 1], tracks[|tracks| - 1];
      TracksCreated(before);
      LastIsNew(tracks);
      LastTrackCreated(before, t);
      assert BareAll(tracks) == BareAll(before) + [Bare(t)];
    }
  }

  lemma LastIsNew(tracks: seq<StreamParams>)
    requires GoodTracks(tracks) && tracks != []
    ensures var before, t := tracks[..|tracks| - 1], tracks[|tracks| - 1];
            t.ssrcs != [] && forall u :: u in BareAll(before) ==> u.id != t.id
  {
    assert tracks[|tracks| - 1] in tracks;
  }

  lemma LastTrackCreated(before: seq<StreamParams>, t: StreamParams)
    requires t.ssrcs != [] && forall u :: u in BareAll(before) ==> u.id != t.id
    requires CreateTracks(Infos(before), []) == BareAll(before)
    ensures CreateTracks(Infos(before) + TrackInfos(t, t.ssrcs), []) == BareAll(before) + [Bare(t)]
  {
    CreateTracksConcat(Infos(before), TrackInfos(t, t.ssrcs), []);
    assert t.ssrcs[..|t.ssrcs|] == t.ssrcs;
    TrackCreated(BareAll(before), t, |t.ssrcs|);
  }

  // The tracks when those before k have their groups, and track k its first j.
  function Partly(tracks: seq<StreamParams>, k: nat, j: nat): (r: seq<StreamParams>)
    requires k < |tracks| ==> j <= |tracks[k].ssrcGroups|
    ensures |r| == |tracks|
  {
    seq(|tracks|, i requires 0 <= i < |tracks| =>
      if i < k then tracks[i]
      else if i == k then tracks[i].(ssrcGroups := tracks[i].ssrcGroups[..j])
      else Bare(tracks[i]))
  }

  lemma AttachOne(tracks: seq<StreamParams>, k: nat, j: nat)
    requires GoodTracks(tracks) && k < |tracks| && j < |tracks[k].ssrcGroups|
    ensures Attach(Partly(tracks, k, j), tracks[k].ssrcGroups[j]) == Partly(tracks, k, j + 1)
  {
    var t := tracks[k];
    var g := t.ssrcGroups[j];
    assert t in tracks && g in t.ssrcGroups;
    assert GoodGroup(g, t);
    assert t.ssrcGroups[..j] + [g] == t.ssrcGroups[..j + 1];
    forall i | 0 <= i < |tracks| && i != k ensures g.ssrcs[0] !in tracks[i].ssrcs {
    }
  }

  lemma {:induction false} AttachTrack(tracks: seq<StreamParams>, k: nat, j: nat)
    requires GoodTracks(tracks) && k < |tracks| && j <= |tracks[k].ssrcGroups|
    ensures AttachAll(Partly(tracks, k, 0), tracks[k].ssrcGroups[..j]) == Partly(tracks, k, j)
  {
    if j > 0 {
      var groups := tracks[k].ssrcGroups;
      assert groups[..j][..j - 1] == groups[..j - 1];
      AttachTrack(tracks, k, j - 1);
      AttachOne(tracks, k, j - 1);
    }
  }

  lemma {:induction false} AttachAllConcat(tracks: seq<StreamParams>, a: seq<SsrcGroup>, b: seq<SsrcGroup>)
    ensures AttachAll(tracks, a + b) == AttachAll(AttachAll(tracks, a), b)
  {
    if b == [] {
      assert a + b == a;
    } else {
      assert (a + b)[..|a + b| - 1] == a + b[..|b| - 1];
      AttachAllConcat(tracks, a, b[..|b| - 1]);
    }
  }

  lemma {:induction false} GroupsAttached(tracks: seq<StreamParams>, k: nat)
    requires GoodTracks(tracks) && k <= |tracks|
    ensures AttachAll(BareAll(tracks), Groups(tracks[..k])) == Partly(tracks, k, 0)
  {
    if k == 0 {
      assert BareAll(tracks) == Partly(tracks, 0, 0);
    } else {
      var groups := tracks[k - 1].ssrcGroups;
      GroupsAttached(tracks, k - 1);
      assert tracks[..k][..k - 1] == tracks[..k - 1];
      AttachAllConcat(BareAll(tracks), Groups(tracks[..k - 1]), groups);
      assert groups[..|groups|] == groups;
      AttachTrack(tracks, k - 1, |groups|);
      assert Partly(tracks, k - 1, |groups|) == Partly(tracks, k, 0);
    }
  }

  /** If they are well formed and survive, the tracks are read back, with their ids, ssrcs, cnames, stream
      ids and groups in order. */
  lemma TracksReadBack(s: State, tracks: seq<StreamParams>)
    requires GoodTracks(tracks) && (forall t :: t in tracks ==> TrackSurvives(t))
    requires s.media == "video" && s.video == [] && s.groups == []
    ensures ParseLines(s, Lines(tracks)).Some? && VideoTracks(ParseLines(s, Lines(tracks)).value) == tracks
  {
    LinesRead(s, tracks);
    TracksCreated(tracks);
    var n := |tracks|;
    GroupsAttached(tracks, n);
    assert tracks[..n] == tracks && Partly(tracks, n, 0) == tracks;
    if tracks != [] {
      assert tracks[n - 1] in tracks;
      assert |Infos(tracks)| > 0;
    }
  }

  /** The lines printed for any tracks are read back as the same tracks exactly if these are
      well formed and each of their strings survives. */
  lemma RoundTrip(s: State, tracks: seq<StreamParams>)
    requires s.media == "video" && s.video == [] && s.groups == []
    ensures var r := ParseLines(s, Lines(tracks));
            r.Some? && VideoTracks(r.value) == tracks <==> GoodTracks(tracks) && forall t :: t in tracks ==> TrackSurvives(t)
  {
    var r := ParseLines(s, Lines(tracks));
    if r.Some? && VideoTracks(r.value) == tracks {
      ReadSurvive(s, tracks);
    }
    if GoodTracks(tracks) && forall t :: t in tracks ==> TrackSurvives(t) {
      TracksReadBack(s, tracks);
    }
  }

  /** The way of the tracks of a publisher to its viewers: whatever was printed for them, what
      is read, if no line is refused, is read back as the same tracks when it is printed again. */
  lemma ReadAgain(s: State, tracks: seq<StreamParams>, s': State)
    requires s.media == "video" && s.video == [] && s.groups == [] && ParseLines(s, Lines(tracks)).Some?
    requires s'.media == "video" && s'.video == [] && s'.groups == []
    ensures var read := VideoTracks(ParseLines(s, Lines(tracks)).value);
            var again := ParseLines(s', Lines(read));
            again.Some? && VideoTracks(again.value) == read
  {
    ReadSurvive(s, tracks);
    RoundTrip(s', VideoTracks(ParseLines(s, Lines(tracks)).value));
  }

  /** A cname is lost that ends in "m=", as text in base 64 may, or starts with ':'. */
  lemma CnameCanBeLost()
    ensures !CnameSurvives("Tm=") && !CnameSurvives(":x")
  {
    assert At("Tm=", 1, "m=");
    assert forall i :: !At("Tm=", i, "m=group:BUNDLE");
  }

  // ---------- The text ----------

  function WithCr(lines: seq<string>): (r: seq<string>)
    ensures |r| == |lines|
  {
    seq(|lines|, i requires 0 <= i < |lines| => lines[i] + "\r")
  }

  lemma {:induction false} SplitText(lines: seq<string>, x: string)
    requires (forall line :: line in lines ==> Without(line, '\n')) && Without(x, '\n')
    ensures Split(Text(lines) + x, '\n') == WithCr(lines) + [x]
  {
    if lines == [] {
      assert Text(lines) + x == x;
      SplitNone(x, '\n');
    } else {
      var n := |lines| - 1;
      var line := lines[n] + "\r";
      assert lines[n] in lines;
      SplitText(lines[..n], line);
      var before := Text(lines[..n]) + line;
      assert "\r\n" == "\r" + ['\n'];
      assert Text(lines) + x == before + ['\n'] + x;
      SplitSnoc(before, '\n', x);
      assert WithCr(lines) == WithCr(lines[..n]) + [line];
    }
  }

  lemma {:induction false} NonEmptyLines(lines: seq<string>)
    ensures NonEmpty(WithCr(lines) + [""]) == WithCr(lines)
  {
    var fields := WithCr(lines) + [""];
    if lines == [] {
      assert fields == [""] && fields[1..] == [];
    } else {
      NonEmptyLines(lines[1..]);
      assert fields[1..] == WithCr(lines[1..]) + [""];
      assert WithCr(lines) == [lines[0] + "\r"] + WithCr(lines[1..]);
    }
  }

  /** The text of some lines is cut up into these lines. */
  lemma FieldsOfText(lines: seq<string>)
    requires lines != [] && forall line :: line in lines ==> Without(line, '\n')
    ensures Fields(Text(lines)) == lines
  {
    var text, n := Text(lines), |lines| - 1;
    SplitText(lines, "");
    assert text + "" == text;
    NonEmptyLines(lines);
    assert text == Text(lines[..n]) + lines[n] + "\r\n";
    assert At(text, |text| - 2, "\r\n");
    forall i | 0 <= i < |lines| ensures Fields(text)[i] == lines[i] {
      assert (lines[i] + "\r")[..|lines[i]|] == lines[i];
    }
  }

  lemma {:induction false} NumbersOneLine(ssrcs: seq<U32>)
    ensures Without(Numbers(ssrcs), '\n')
  {
    if ssrcs != [] {
      NumbersOneLine(ssrcs[..|ssrcs| - 1]);
      DecimalIsPlain(ssrcs[|ssrcs| - 1]);
    }
  }

  lemma SsrcLineOneLine(ssrc: U32, attribute: string, value: string)
    requires IsAttribute(attribute) && Without(value, '\n')
    ensures Without(SsrcLine(ssrc, attribute, value), '\n')
  {
    DecimalIsPlain(ssrc);
    AttributePlain(attribute);
  }

  lemma {:induction false} GroupLinesOneLine(groups: seq<SsrcGroup>)
    requires forall g :: g in groups ==> OneLine(g.semantics)
    ensures forall line :: line in GroupLines(groups) ==> Without(line, '\n')
  {
    if groups != [] {
      var last := groups[|groups| - 1];
      assert last in groups;
      GroupLinesOneLine(groups[..|groups| - 1]);
      NumbersOneLine(last.ssrcs);
    }
  }

  lemma {:induction false} SsrcLinesOneLine(t: StreamParams, ssrcs: seq<U32>)
    requires TrackOneLine(t)
    ensures forall line :: line in SsrcLines(t, ssrcs) ==> Without(line, '\n')
  {
    if ssrcs != [] {
      var ssrc := ssrcs[|ssrcs| - 1];
      SsrcLinesOneLine(t, ssrcs[..|ssrcs| - 1]);
      SsrcLineOneLine(ssrc, "cname", t.cname);
      SsrcLineOneLine(ssrc, "msid", t.streamId + " " + t.id);
      SsrcLineOneLine(ssrc, "mslabel", t.streamId);
      SsrcLineOneLine(ssrc, "lable", t.id);
    }
  }

  lemma {:induction false} LinesOneLine(tracks: seq<StreamParams>)
    requires forall t :: t in tracks ==> TrackOneLine(t)
    ensures forall line :: line in Lines(tracks) ==> Without(line, '\n')
  {
    if tracks != [] {
      var t := tracks[|tracks| - 1];
      assert t in tracks;
      LinesOneLine(tracks[..|tracks| - 1]);
      GroupLinesOneLine(t.ssrcGroups);
      SsrcLinesOneLine(t, t.ssrcs);
    }
  }

  // The lines lead into a video section.
  predicate LeadsIn(head: seq<string>) {
    && head != [] && (forall line :: line in head ==> OneLine(line))
    && var s := ParseLines(State("", [], [], []), head);
       s.Some? && s.value.media == "video" && s.value.video == [] && s.value.groups == []
  }

  /** The whole text: after any lines that lead into a video section, the text printed for any
      tracks is read back as the same tracks exactly if these are well formed, and each of
      their strings survives and is on one line. */
  lemma TextRoundTrip(head: seq<string>, tracks: seq<StreamParams>)
    requires LeadsIn(head)
    ensures RemoteTracks(Text(head + Lines(tracks))) == Some(tracks) <==>
            GoodTracks(tracks) && forall t :: t in tracks ==> TrackSurvives(t) && TrackOneLine(t)
  {
    if RemoteTracks(Text(head + Lines(tracks))) == Some(tracks) {
      ReadOneLine(Text(head + Lines(tracks)));
    }
    if forall t :: t in tracks ==> TrackOneLine(t) {
      LinesOneLine(tracks);
      FieldsOfText(head + Lines(tracks));
      ParseLinesConcat(State("", [], [], []), head, Lines(tracks));
      RoundTrip(ParseLines(State("", [], [], []), head).value, tracks);
    }
  }

  /** And for texts: what is read of a printed text can be printed and read again. */
  lemma TextReadAgain(head: seq<string>, tracks: seq<StreamParams>, head': seq<string>)
    requires LeadsIn(head) && LeadsIn(head') && forall t :: t in tracks ==> TrackOneLine(t)
    ensures var read := RemoteTracks(Text(head + Lines(tracks)));
            read.Some? ==> RemoteTracks(Text(head' + Lines(read.value))) == read
  {
    var text := Text(head + Lines(tracks));
    if RemoteTracks(text).Some? {
      LinesOneLine(tracks);
      FieldsOfText(head + Lines(tracks));
      ParseLinesConcat(State("", [], [], []), head, Lines(tracks));
      ReadSurvive(ParseLines(State("", [], [], []), head).value, tracks);
      ReadOneLine(text);
      TextRoundTrip(head', RemoteTracks(text).value);
    }
  }
}
