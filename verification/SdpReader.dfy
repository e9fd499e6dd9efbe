/** The loops of SessionDescription and PeerConnection over the lines of a session
    description. */
module SdpReader {
  import opened Basics
  import opened SdpText
  import opened SdpTracks

  // ---------- Printing ----------

  /** A stringstream that is printed to. */
  class StringStream {
    var str: string

    constructor ()
      ensures str == ""
    {
      str := "";
    }

    method Print(s: string)
      modifies this
      ensures str == old(str) + s
    {
      str := str + s;
    }
  }

  method AddSsrcLine(ssrc: U32, attribute: string, value: string, ss: StringStream)
    modifies ss
    ensures ss.str == old(ss.str) + SsrcLine(ssrc, attribute, value) + "\r\n"
  {
    ss.Print("a=ssrc:");
    ss.Print(ToDecimal(ssrc));
    ss.Print(" ");
    ss.Print(attribute);
    ss.Print(":");
    ss.Print(value);
    ss.Print("\r\n");
  }

  method AddGroupLine(g: SsrcGroup, ss: StringStream)
    modifies ss
    ensures ss.str == old(ss.str) + GroupLine(g) + "\r\n"
  {
    ss.Print("a=ssrc-group:");
    ss.Print(g.semantics);
    ghost var before := old(ss.str) + "a=ssrc-group:" + g.semantics;
    for i := 0 to |g.ssrcs|
      invariant ss.str == before + Numbers(g.ssrcs[..i])
    {
      assert g.ssrcs[..i + 1][..i] == g.ssrcs[..i];
      ss.Print(" ");
      ss.Print(ToDecimal(g.ssrcs[i]));
    }
    assert g.ssrcs[..|g.ssrcs|] == g.ssrcs;
    ss.Print("\r\n");
  }

  lemma TextSnoc(lines: seq<string>, line: string)
    ensures Text(lines + [line]) == Text(lines) + line + "\r\n"
  {
    assert (lines + [line])[..|lines|] == lines;
  }

  lemma {:induction false} TextConcat(a: seq<string>, b: seq<string>)
    ensures Text(a + b) == Text(a) + Text(b)
  {
    if b == [] {
      assert a + b == a && Text(a) + "" == Text(a);
    } else {
      var n := |b| - 1;
      assert (a + b)[..|a + b| - 1] == a + b[..n];
      TextConcat(a, b[..n]);
      assert Text(a) + (Text(b[..n]) + b[n] + "\r\n") == Text(a) + Text(b[..n]) + b[n] + "\r\n";
    }
  }

  // What the next step of each loop prints, after base and what was printed before.
  lemma NextGroup(base: string, groups: seq<SsrcGroup>, i: nat)
    requires i < |groups|
    ensures base + Text(GroupLines(groups[..i + 1])) ==
            base + Text(GroupLines(groups[..i])) + if groups[i].ssrcs == [] then "" else GroupLine(groups[i]) + "\r\n"
  {
    var lines := GroupLines(groups[..i]);
    assert groups[..i + 1][..i] == groups[..i];
    if groups[i].ssrcs == [] {
      assert lines + [] == lines;
    } else {
      TextSnoc(lines, GroupLine(groups[i]));
    }
  }

  lemma NextSsrc(base: string, t: StreamParams, i: nat)
    requires i < |t.ssrcs|
    ensures base + Text(SsrcLines(t, t.ssrcs[..i + 1])) ==
            base + Text(SsrcLines(t, t.ssrcs[..i])) + Text(LinesOfSsrc(t, t.ssrcs[i]))
  {
    assert t.ssrcs[..i + 1][..i] == t.ssrcs[..i];
    TextConcat(SsrcLines(t, t.ssrcs[..i]), LinesOfSsrc(t, t.ssrcs[i]));
  }

  lemma NextTrack(base: string, tracks: seq<StreamParams>, i: nat)
    requires i < |tracks|
    ensures base + Text(Lines(tracks[..i + 1])) == base + Text(Lines(tracks[..i])) + Text(TrackLines(tracks[i]))
  {
    assert tracks[..i + 1][..i] == tracks[..i];
    TextConcat(Lines(tracks[..i]), TrackLines(tracks[i]));
  }

  lemma BothParts(base: string, t: StreamParams)
    ensures base + Text(GroupLines(t.ssrcGroups)) + Text(SsrcLines(t, t.ssrcs)) == base + Text(TrackLines(t))
  {
    TextConcat(GroupLines(t.ssrcGroups), SsrcLines(t, t.ssrcs));
  }

  method BuildGroups(t: StreamParams, ss: StringStream)
    modifies ss
    ensures ss.str == old(ss.str) + Text(GroupLines(t.ssrcGroups))
  {
    for i := 0 to |t.ssrcGroups|
      invariant ss.str == old(ss.str) + Text(GroupLines(t.ssrcGroups[..i]))
    {
      NextGroup(old(ss.str), t.ssrcGroups, i);
      if t.ssrcGroups[i].ssrcs == [] {
        continue;
      }
      AddGroupLine(t.ssrcGroups[i], ss);
    }
    assert t.ssrcGroups[..|t.ssrcGroups|] == t.ssrcGroups;
  }

  lemma FourTexts(base: string, a: string, b: string, c: string, d: string)
    ensures base + a + "\r\n" + b + "\r\n" + c + "\r\n" + d + "\r\n" == base + Text([a, b, c, d])
  {
    OneText(base, [], a);
    OneText(base, [a], b);
    OneText(base, [a, b], c);
    OneText(base, [a, b, c], d);
    assert [] + [a] == [a] && [a] + [b] == [a, b] && [a, b] + [c] == [a, b, c] && [a, b, c] + [d] == [a, b, c, d];
  }

  lemma OneText(base: string, lines: seq<string>, line: string)
    ensures base + Text(lines + [line]) == base + Text(lines) + line + "\r\n"
  {
    TextSnoc(lines, line);
  }

  method BuildSsrcLines(t: StreamParams, ssrc: U32, ss: StringStream)
    modifies ss
    ensures ss.str == old(ss.str) + Text(LinesOfSsrc(t, ssrc))
  {
    var msid := t.streamId + " " + t.id;
    AddSsrcLine(ssrc, "cname", t.cname, ss);
    AddSsrcLine(ssrc, "msid", msid, ss);
    AddSsrcLine(ssrc, "mslabel", t.streamId, ss);
    AddSsrcLine(ssrc, "lable", t.id, ss);
    FourTexts(old(ss.str), SsrcLine(ssrc, "cname", t.cname), SsrcLine(ssrc, "msid", msid),
              SsrcLine(ssrc, "mslabel", t.streamId), SsrcLine(ssrc, "lable", t.id));
  }

  method BuildTrack(t: StreamParams, ss: StringStream)
    modifies ss
    ensures ss.str == old(ss.str) + Text(TrackLines(t))
  {
    BuildGroups(t, ss);
    ghost var base := ss.str;
    for i := 0 to |t.ssrcs|
      invariant ss.str == base + Text(SsrcLines(t, t.ssrcs[..i]))
    {
      NextSsrc(base, t, i);
      BuildSsrcLines(t, t.ssrcs[i], ss);
    }
    assert t.ssrcs[..|t.ssrcs|] == t.ssrcs;
    BothParts(old(ss.str), t);
  }

  /** Prints all tracks of a section. */
  method BuildSsrc(tracks: seq<StreamParams>, ss: StringStream)
    modifies ss
    ensures ss.str == old(ss.str) + Text(Lines(tracks))
  {
    for i := 0 to |tracks|
      invariant ss.str == old(ss.str) + Text(Lines(tracks[..i]))
    {
      NextTrack(old(ss.str), tracks, i);
      BuildTrack(tracks[i], ss);
    }
    assert tracks[..|tracks|] == tracks;
  }

  // ---------- Reading ----------

  method ReadSsrcInfo(infos: seq<SsrcInfo>, line: string) returns (ok: bool, infos': seq<SsrcInfo>)
    ensures ok == ParseSsrcInfo(infos, line).Some?
    ensures ok ==> infos' == ParseSsrcInfo(infos, line).value
  {
    infos' := infos;
    if !Contains(line, "a=ssrc:") {
      return true, infos;
    }
    if |line| < 2 {
      return false, infos;
    }
    var cut := TokenizeFirst(line[2..], ' ');
    if cut.None? || |cut.value.0| < 5 {
      return false, infos;
    }
    var ssrc := FromDecimal(cut.value.0[5..]);
    if ssrc.None? {
      return false, infos;
    }
    var attribute := TokenizeFirst(cut.value.1, ':');
    if attribute.None? {
      return false, infos;
    }
    ok, infos' := StoreAttribute(infos, ssrc.value, attribute.value.0, attribute.value.1);
  }

  method StoreAttribute(infos: seq<SsrcInfo>, ssrc: U32, attribute: string, value: string)
      returns (ok: bool, infos': seq<SsrcInfo>)
    ensures ok == Assign(infos, ssrc, attribute, value).Some?
    ensures ok ==> infos' == Assign(infos, ssrc, attribute, value).value
  {
    infos' := infos;
    var i := 0;
    while i < |infos| && infos[i].ssrcId != ssrc
      invariant 0 <= i <= |infos| && forall j :: 0 <= j < i ==> infos[j].ssrcId != ssrc
    {
      i := i + 1;
    }
    assert i == Find(infos, ssrc);
    if i == |infos| {
      infos' := infos + [SsrcInfo(ssrc, "", "", "")];
    }
    if attribute == "cname" {
      infos' := infos'[i := infos'[i].(cname := value)];
    } else if attribute == "msid" {
      var fields := Split(value, ' ');
      if |fields| < 1 || |fields| > 2 {
        return false, infos';
      }
      infos' := infos'[i := infos'[i].(streamId := fields[0])];
      if |fields| == 2 {
        infos' := infos'[i := infos'[i].(trackId := fields[1])];
      }
    }
    ok := true;
  }

  lemma {:induction false} OneBadNumber(fields: seq<string>, i: nat)
    requires i < |fields| && FromDecimal(fields[i]).None?
    ensures ParseNumbers(fields).None?
  {
    if i < |fields| - 1 {
      OneBadNumber(fields[..|fields| - 1], i);
    }
  }

  method ReadSsrcGroupInfo(groups: seq<SsrcGroup>, line: string) returns (ok: bool, groups': seq<SsrcGroup>)
    ensures ok == ParseSsrcGroupInfo(groups, line).Some?
    ensures ok ==> groups' == ParseSsrcGroupInfo(groups, line).value
  {
    groups' := groups;
    if !Contains(line, "a=ssrc-group:") {
      return true, groups;
    }
    if |line| < 2 {
      return false, groups;
    }
    var fields := Split(line[2..], ' ');
    if |fields| < 2 {
      return false, groups;
    }
    var semantics := GetAttribute(fields[0]);
    if semantics == "" {
      return false, groups;
    }
    var numbers := fields[1..];
    var ssrcs := [];
    for i := 0 to |numbers|
      invariant ParseNumbers(numbers[..i]) == Some(ssrcs)
    {
      var ssrc := FromDecimal(numbers[i]);
      if ssrc.None? {
        OneBadNumber(numbers, i);
        return false, groups;
      }
      assert numbers[..i + 1][..i] == numbers[..i];
      ssrcs := ssrcs + [ssrc.value];
    }
    assert numbers[..|numbers|] == numbers;
    ok, groups' := true, groups + [SsrcGroup(semantics, ssrcs)];
  }

  method CreateTrackFromSsrcInfo(infos: seq<SsrcInfo>) returns (tracks: seq<StreamParams>)
    ensures tracks == CreateTracks(infos, [])
  {
    tracks := [];
    for n := 0 to |infos|
      invariant tracks == CreateTracks(infos[..n], [])
    {
      var i := 0;
      while i < |tracks| && tracks[i].id != infos[n].trackId
        invariant 0 <= i <= |tracks| && forall j :: 0 <= j < i ==> tracks[j].id != infos[n].trackId
      {
        i := i + 1;
      }
      assert i == FindTrack(tracks, infos[n].trackId);
      assert infos[..n + 1][..n] == infos[..n];
      if i == |tracks| {
        tracks := tracks + [StreamParams(infos[n].trackId, [], [], "", "")];
      }
      tracks := tracks[i := tracks[i].(cname := infos[n].cname, streamId := infos[n].streamId,
                                       ssrcs := tracks[i].ssrcs + [infos[n].ssrcId])];
    }
    assert infos[..|infos|] == infos;
  }

  method AttachGroups(bare: seq<StreamParams>, groups: seq<SsrcGroup>) returns (tracks: seq<StreamParams>)
    ensures tracks == AttachAll(bare, groups)
  {
    tracks := bare;
    for n := 0 to |groups|
      invariant tracks == AttachAll(bare, groups[..n])
    {
      var g := groups[n];
      assert groups[..n + 1][..n] == groups[..n];
      ghost var before := tracks;
      if g.ssrcs == [] {
        assert Attach(before, g) == before;
        continue;
      }
      var count := |tracks|;
      for i := 0 to count
        invariant |tracks| == |before|
        invariant forall j :: 0 <= j < |before| ==> tracks[j] == if j < i then AttachTo(g, before[j]) else before[j]
      {
        if g.ssrcs[0] in tracks[i].ssrcs {
          tracks := tracks[i := tracks[i].(ssrcGroups := tracks[i].ssrcGroups + [g])];
        }
      }
      assert tracks == Attach(before, g);
    }
    assert groups[..|groups|] == groups;
  }

  method ReadLine(s: State, line: string) returns (ok: bool, s': State)
    ensures ok == ParseLine(s, line).Some?
    ensures ok ==> s' == ParseLine(s, line).value
  {
    s' := s;
    var media := NextMedia(s.media, line);
    if media.None? {
      return false, s;
    }
    if media.value == "audio" {
      var audio;
      ok, audio := ReadSsrcInfo(s.audio, line);
      ok := TransportOk(line) && ok;
      s' := s.(media := media.value, audio := audio);
    } else if media.value == "video" {
      var groups, video;
      ok, groups := ReadSsrcGroupInfo(s.groups, line);
      if !TransportOk(line) || !ok {
        return false, s;
      }
      ok, video := ReadSsrcInfo(s.video, line);
      s' := s.(media := media.value, groups := groups, video := video);
    } else {
      ok, s' := true, s.(media := media.value);
    }
  }

  lemma {:induction false} StopsEarly(s: State, lines: seq<string>, i: nat)
    requires i <= |lines| && ParseLines(s, lines[..i]).None?
    ensures ParseLines(s, lines).None?
  {
    if i < |lines| {
      var before := lines[..|lines| - 1];
      assert before[..i] == lines[..i];
      StopsEarly(s, before, i);
    } else {
      assert lines[..i] == lines;
    }
  }

  /** The video tracks of a session description. */
  method SetRemoteSdp(sdp: string) returns (ok: bool, tracks: seq<StreamParams>)
    ensures ok == RemoteTracks(sdp).Some?
    ensures ok ==> tracks == RemoteTracks(sdp).value
  {
    tracks := [];
    var fields := Fields(sdp);
    if fields == [] {
      return false, [];
    }
    var start := State("", [], [], []);
    var s := start;
    for i := 0 to |fields|
      invariant ParseLines(start, fields[..i]) == Some(s)
    {
      assert fields[..i + 1][..i] == fields[..i];
      ok, s := ReadLine(s, fields[i]);
      if !ok {
        StopsEarly(start, fields, i + 1);
        return;
      }
    }
    assert fields[..|fields|] == fields;
    if s.video != [] {
      tracks := CreateTrackFromSsrcInfo(s.video);
      tracks := AttachGroups(tracks, s.groups);
    }
    ok := true;
  }
}
