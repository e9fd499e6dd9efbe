/** The tracks of a session description: how SessionDescription prints them and
    PeerConnection::set_remote_sdp reads them (sections 4.1 and 4.2 of RFC 5576). */
module SdpTracks {
  import opened Basics
  import opened SdpText

  datatype SsrcGroup = SsrcGroup(semantics: string, ssrcs: seq<U32>)

  datatype StreamParams = StreamParams(id: string, ssrcs: seq<U32>, ssrcGroups: seq<SsrcGroup>, cname: string, streamId: string)

  datatype SsrcInfo = SsrcInfo(ssrcId: U32, cname: string, streamId: string, trackId: string)

  // ---------- Printing ----------

  function SsrcLine(ssrc: U32, attribute: string, value: string): string {
    "a=ssrc:" + ToDecimal(ssrc) + " " + attribute + ":" + value
  }

  function Numbers(ssrcs: seq<U32>): string {
    if ssrcs == [] then "" else Numbers(ssrcs[..|ssrcs| - 1]) + " " + ToDecimal(ssrcs[|ssrcs| - 1])
  }

  function GroupLine(g: SsrcGroup): string {
    "a=ssrc-group:" + g.semantics + Numbers(g.ssrcs)
  }

  // A group without members is not printed.
  function GroupLines(groups: seq<SsrcGroup>): seq<string> {
    if groups == [] then []
    else
      var last := groups[|groups| - 1];
      GroupLines(groups[..|groups| - 1]) + if last.ssrcs == [] then [] else [GroupLine(last)]
  }

  function LinesOfSsrc(t: StreamParams, ssrc: U32): seq<string> {
    [SsrcLine(ssrc, "cname", t.cname), SsrcLine(ssrc, "msid", t.streamId + " " + t.id),
     SsrcLine(ssrc, "mslabel", t.streamId), SsrcLine(ssrc, "lable", t.id)]
  }

  function SsrcLines(t: StreamParams, ssrcs: seq<U32>): seq<string> {
    if ssrcs == [] then [] else SsrcLines(t, ssrcs[..|ssrcs| - 1]) + LinesOfSsrc(t, ssrcs[|ssrcs| - 1])
  }

  function TrackLines(t: StreamParams): seq<string> {
    GroupLines(t.ssrcGroups) + SsrcLines(t, t.ssrcs)
  }

  /** The lines that build_ssrc prints for a list of tracks. */
  function Lines(tracks: seq<StreamParams>): seq<string> {
    if tracks == [] then [] else Lines(tracks[..|tracks| - 1]) + TrackLines(tracks[|tracks| - 1])
  }

  function Text(lines: seq<string>): string {
    if lines == [] then "" else Text(lines[..|lines| - 1]) + lines[|lines| - 1] + "\r\n"
  }

  // ---------- Reading a line ----------

  const DIGESTS := {"sha-1", "sha-224", "sha-256", "sha-384", "sha-512"}

  function ToLower(s: string): (r: string)
    ensures |r| == |s| && forall i :: 0 <= i < |s| && IsDigit(s[i]) ==> r[i] == s[i]
  {
    seq(|s|, i requires 0 <= i < |s| => if 'A' <= s[i] <= 'Z' then (s[i] as int + 32) as char else s[i])
  }

  predicate IsHex(c: char) {
    IsDigit(c) || 'a' <= c <= 'f' || 'A' <= c <= 'F'
  }

  // Pairs of hexadecimal digits with ':' in between.
  predicate IsFingerprint(s: string) {
    && |s| >= 2 && IsHex(s[0]) && IsHex(s[1])
    && (|s| > 2 ==> |s| > 3 && s[2] == ':' && IsFingerprint(s[3..]))
  }

  function GetAttribute(line: string): string {
    var fields := Tokenize(line, ':');
    if |fields| != 2 then "" else fields[1]
  }

  /** parse_transport_info does not fail. */
  predicate TransportOk(line: string) {
    if Contains(line, "a=ice-ufrag") then GetAttribute(line) != ""
    else if Contains(line, "a=ice-pwd") then GetAttribute(line) != ""
    else if Contains(line, "a=fingerprint") then
      var items := Tokenize(line, ' ');
      && |items| == 2 && |items[0]| >= 14
      && ToLower(items[0][14..]) in DIGESTS && IsFingerprint(items[1]) && (|items[1]| + 1) / 3 <= 64
    else true
  }

  // Where the ssrc is in infos; the length if it is not.
  function Find(infos: seq<SsrcInfo>, ssrc: U32): (i: nat)
    ensures i <= |infos| && (i < |infos| ==> infos[i].ssrcId == ssrc)
    ensures forall j :: 0 <= j < i ==> infos[j].ssrcId != ssrc
  {
    if infos == [] || infos[0].ssrcId == ssrc then 0 else 1 + Find(infos[1..], ssrc)
  }

  function WithSsrc(infos: seq<SsrcInfo>, ssrc: U32): (r: seq<SsrcInfo>)
    ensures Find(infos, ssrc) < |r|
  {
    if Find(infos, ssrc) == |infos| then infos + [SsrcInfo(ssrc, "", "", "")] else infos
  }

  // Stores one attribute of an ssrc.
  function Assign(infos: seq<SsrcInfo>, ssrc: U32, attribute: string, value: string): Option<seq<SsrcInfo>> {
    var all, i := WithSsrc(infos, ssrc), Find(infos, ssrc);
    if attribute == "cname" then Some(all[i := all[i].(cname := value)])
    else if attribute == "msid" then
      var fields := Split(value, ' ');
      if |fields| > 2 then None
      else Some(all[i := all[i].(streamId := fields[0], trackId := if |fields| == 2 then fields[1] else all[i].trackId)])
    else Some(all)
  }

  /** parse_ssrc_info.  A cut that std::string::substr would refuse counts as a failure. */
  function ParseSsrcInfo(infos: seq<SsrcInfo>, line: string): Option<seq<SsrcInfo>> {
    if !Contains(line, "a=ssrc:") then Some(infos)
    else if |line| < 2 then None
    else
      var cut := TokenizeFirst(line[2..], ' ');
      if cut.None? || |cut.value.0| < 5 then None
      else
        var ssrc, attribute := FromDecimal(cut.value.0[5..]), TokenizeFirst(cut.value.1, ':');
        if ssrc.None? || attribute.None? then None
        else Assign(infos, ssrc.value, attribute.value.0, attribute.value.1)
  }

  function ParseNumbers(fields: seq<string>): Option<seq<U32>> {
    if fields == [] then Some([])
    else
      var before, last := ParseNumbers(fields[..|fields| - 1]), FromDecimal(fields[|fields| - 1]);
      if before.None? || last.None? then None else Some(before.value + [last.value])
  }

  /** parse_ssrc_group_info. */
  function ParseSsrcGroupInfo(groups: seq<SsrcGroup>, line: string): Option<seq<SsrcGroup>> {
    if !Contains(line, "a=ssrc-group:") then Some(groups)
    else if |line| < 2 then None
    else
      var fields := Split(line[2..], ' ');
      if |fields| < 2 then None
      else
        var semantics, ssrcs := GetAttribute(fields[0]), ParseNumbers(fields[1..]);
        if semantics == "" || ssrcs.None? then None else Some(groups + [SsrcGroup(semantics, ssrcs.value)])
  }

  // ---------- Reading all lines ----------

  datatype State = State(media: string, audio: seq<SsrcInfo>, video: seq<SsrcInfo>, groups: seq<SsrcGroup>)

  // The current section after a line.  The names in a bundle line are not part of this.
  function NextMedia(media: string, line: string): Option<string> {
    if Contains(line, "m=group:BUNDLE") then Some(media)
    else if Contains(line, "m=") then
      var items := Split(line, ' ');
      if |items| <= 2 || |items[0]| < 2 then None else Some(items[0][2..])
    else Some(media)
  }

  /** What set_remote_sdp does with one line; None where it gives up. */
  function ParseLine(s: State, line: string): Option<State> {
    var media := NextMedia(s.media, line);
    if media.None? then None
    else if media.value == "audio" then
      var infos := ParseSsrcInfo(s.audio, line);
      if !TransportOk(line) || infos.None? then None else Some(s.(media := media.value, audio := infos.value))
    else if media.value == "video" then
      var groups, infos := ParseSsrcGroupInfo(s.groups, line), ParseSsrcInfo(s.video, line);
      if !TransportOk(line) || groups.None? || infos.None? then None
      else Some(s.(media := media.value, video := infos.value, groups := groups.value))
    else Some(s.(media := media.value))
  }

  function ParseLines(s: State, lines: seq<string>): Option<State> {
    if lines == [] then Some(s)
    else
      var before := ParseLines(s, lines[..|lines| - 1]);
      if before.None? then None else ParseLine(before.value, lines[|lines| - 1])
  }

  // ---------- Tracks ----------

  function FindTrack(tracks: seq<StreamParams>, id: string): (i: nat)
    ensures i <= |tracks| && (i < |tracks| ==> tracks[i].id == id)
    ensures forall j :: 0 <= j < i ==> tracks[j].id != id
  {
    if tracks == [] || tracks[0].id == id then 0 else 1 + FindTrack(tracks[1..], id)
  }

  function AddToTrack(tracks: seq<StreamParams>, info: SsrcInfo): seq<StreamParams> {
    var i := FindTrack(tracks, info.trackId);
    var all := if i == |tracks| then tracks + [StreamParams(info.trackId, [], [], "", "")] else tracks;
    all[i := all[i].(cname := info.cname, streamId := info.streamId, ssrcs := all[i].ssrcs + [info.ssrcId])]
  }

  /** create_track_from_ssrc_info. */
  function CreateTracks(infos: seq<SsrcInfo>, tracks: seq<StreamParams>): seq<StreamParams> {
    if infos == [] then tracks
    else AddToTrack(CreateTracks(infos[..|infos| - 1], tracks), infos[|infos| - 1])
  }

  function AttachTo(g: SsrcGroup, t: StreamParams): StreamParams {
    if g.ssrcs != [] && g.ssrcs[0] in t.ssrcs then t.(ssrcGroups := t.ssrcGroups + [g]) else t
  }

  function Attach(tracks: seq<StreamParams>, g: SsrcGroup): (r: seq<StreamParams>)
    ensures |r| == |tracks|
  {
    seq(|tracks|, i requires 0 <= i < |tracks| => AttachTo(g, tracks[i]))
  }

  function AttachAll(tracks: seq<StreamParams>, groups: seq<SsrcGroup>): (r: seq<StreamParams>)
    ensures |r| == |tracks|
  {
    if groups == [] then tracks else Attach(AttachAll(tracks, groups[..|groups| - 1]), groups[|groups| - 1])
  }

  function VideoTracks(s: State): seq<StreamParams> {
    if s.video == [] then [] else AttachAll(CreateTracks(s.video, []), s.groups)
  }

  // ---------- The whole text ----------

  // The lines of a text, without the "\r" at their ends if there is one anywhere.
  function Fields(text: string): seq<string> {
    var fields := Tokenize(text, '\n');
    if Contains(text, "\r\n") then
      seq(|fields|, i requires 0 <= i < |fields| => if fields[i] == "" then "" else fields[i][..|fields[i]| - 1])
    else fields
  }

  /** The video tracks that set_remote_sdp gets out of a text; None if it fails. */
  function RemoteTracks(text: string): Option<seq<StreamParams>> {
    if Fields(text) == [] then None
    else
      var s := ParseLines(State("", [], [], []), Fields(text));
      if s.None? then None else Some(VideoTracks(s.value))
  }
}
