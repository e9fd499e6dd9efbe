/** How the lines that are printed for tracks are read, whatever the strings in them. */
module SdpLines {
  import opened Basics
  import opened SdpText
  import opened SdpTracks

  // ---------- Strings that survive ----------

  // No other kind of line is seen in a value ...
  predicate NoMarks(v: string) {
    && !Contains(v, "a=ice-ufrag") && !Contains(v, "a=ice-pwd") && !Contains(v, "a=fingerprint")
    && !Contains(v, "a=ssrc-group:")
  }

  // ... nor the start of a section.
  predicate MediaOk(v: string) {
    Contains(v, "m=") ==> Contains(v, "m=group:BUNDLE")
  }

  predicate ValueOk(v: string) {
    MediaOk(v) && NoMarks(v)
  }

  /** A cname that set_remote_sdp takes for what it is. */
  predicate CnameSurvives(c: string) {
    ValueOk(c) && (c != "" ==> c[0] != ':')
  }

  predicate StreamIdSurvives(x: string) {
    ValueOk(x) && (x != "" ==> x[0] != ':') && Without(x, ' ')
  }

  predicate IdSurvives(x: string) {
    ValueOk(x) && Without(x, ' ')
  }

  predicate SemanticsSurvive(x: string) {
    && x != "" && Without(x, ' ') && Without(x, ':') && !Contains(x, "m=")
    && (Contains(x, "a=fingerprint") ==> Contains(x, "a=ice-ufrag") || Contains(x, "a=ice-pwd"))
  }

  /** A track whose strings are taken for what they are. */
  predicate TrackSurvives(t: StreamParams) {
    && CnameSurvives(t.cname) && StreamIdSurvives(t.streamId) && IdSurvives(t.id)
    && forall g :: g in t.ssrcGroups ==> SemanticsSurvive(g.semantics)
  }

  predicate GoodGroup(g: SsrcGroup, t: StreamParams) {
    g.ssrcs != [] && g.ssrcs[0] in t.ssrcs
  }

  predicate GoodTrack(t: StreamParams) {
    && t.ssrcs != [] && (forall i, j :: 0 <= i < j < |t.ssrcs| ==> t.ssrcs[i] != t.ssrcs[j])
    && (forall g :: g in t.ssrcGroups ==> GoodGroup(g, t))
  }

  /** Distinct track ids, no shared ssrc, and each group in the track of its first ssrc. */
  predicate GoodTracks(tracks: seq<StreamParams>) {
    && (forall t :: t in tracks ==> GoodTrack(t))
    && (forall i, j :: 0 <= i < j < |tracks| ==> tracks[i].id != tracks[j].id)
    && (forall i, j, x :: 0 <= i < j < |tracks| && x in tracks[i].ssrcs ==> x !in tracks[j].ssrcs)
  }

  // ---------- Markers in printed lines ----------

  predicate OnlyOneEquals(s: string) {
    forall i :: 0 <= i < |s| && i != 1 ==> s[i] != '='
  }

  lemma DecimalIsPlain(n: nat)
    ensures var s := ToDecimal(n);
            Without(s, ' ') && Without(s, '=') && Without(s, ':') && Without(s, '\n') && AllDigits(s)
  {
  }

  function WithVideo(s: State, infos: Option<seq<SsrcInfo>>): Option<State> {
    if infos.None? then None else Some(s.(video := infos.value))
  }

  // The part of an ssrc line before the value.
  function Head(ssrc: U32, attribute: string): string {
    "a=ssrc:" + ToDecimal(ssrc) + " " + attribute + ":"
  }

  predicate IsAttribute(attribute: string) {
    attribute in {"cname", "msid", "mslabel", "lable"}
  }

  lemma AttributePlain(attribute: string)
    requires IsAttribute(attribute)
    ensures attribute != "" && Without(attribute, ' ') && Without(attribute, '=') && Without(attribute, ':')
    ensures Without(attribute, '\n') && !IsDigit(attribute[0]) && attribute[0] != '-'
  {
  }

  lemma HeadIsPlain(ssrc: U32, attribute: string)
    requires IsAttribute(attribute)
    ensures OnlyOneEquals(Head(ssrc, attribute)) && "a=ssrc:" <= Head(ssrc, attribute)
    ensures Head(ssrc, attribute)[|Head(ssrc, attribute)| - 1] == ':'
  {
    DecimalIsPlain(ssrc);
  }

  // An ssrc line has the markers of its value, besides the one it starts with.
  lemma MarkersOfLine(ssrc: U32, attribute: string, value: string)
    requires IsAttribute(attribute)
    ensures var line := SsrcLine(ssrc, attribute, value);
            && Contains(line, "a=ssrc:")
            && Contains(line, "a=ssrc-group:") == Contains(value, "a=ssrc-group:")
            && Contains(line, "m=") == Contains(value, "m=")
            && Contains(line, "m=group:BUNDLE") == Contains(value, "m=group:BUNDLE")
            && Contains(line, "a=ice-ufrag") == Contains(value, "a=ice-ufrag")
            && Contains(line, "a=ice-pwd") == Contains(value, "a=ice-pwd")
            && Contains(line, "a=fingerprint") == Contains(value, "a=fingerprint")
  {
    var head := Head(ssrc, attribute);
    HeadIsPlain(ssrc, attribute);
    assert SsrcLine(ssrc, attribute, value) == head + value;
    MarkersAfterHead(head, value);
  }

  lemma MarkersAfterHead(head: string, value: string)
    requires OnlyOneEquals(head) && "a=ssrc:" <= head && head[|head| - 1] == ':'
    ensures var line := head + value;
            && Contains(line, "a=ssrc:")
            && Contains(line, "a=ssrc-group:") == Contains(value, "a=ssrc-group:")
            && Contains(line, "m=") == Contains(value, "m=")
            && Contains(line, "m=group:BUNDLE") == Contains(value, "m=group:BUNDLE")
            && Contains(line, "a=ice-ufrag") == Contains(value, "a=ice-ufrag")
            && Contains(line, "a=ice-pwd") == Contains(value, "a=ice-pwd")
            && Contains(line, "a=fingerprint") == Contains(value, "a=fingerprint")
  {
    assert "a=ssrc:" <= head + value;
    MarkerInFrontOrRest(head, value, "a=ssrc:");
    assert head[0] == 'a' && head[2] == 's' && head[6] == ':';
    MarkerInRest(head, value, "a=ssrc-group:", 6);
    MarkerInRest(head, value, "m=", 0);
    MarkerInRest(head, value, "m=group:BUNDLE", 0);
    MarkerInRest(head, value, "a=ice-ufrag", 2);
    MarkerInRest(head, value, "a=ice-pwd", 2);
    MarkerInRest(head, value, "a=fingerprint", 2);
  }

  // ---------- Reading an ssrc line ----------

  /** An ssrc line is cut up into what it was put together from; ':' at the front of the value
      are lost. */
  lemma SsrcLineReads(infos: seq<SsrcInfo>, ssrc: U32, attribute: string, value: string)
    requires IsAttribute(attribute)
    requires Contains(SsrcLine(ssrc, attribute, value), "a=ssrc:")
    ensures ParseSsrcInfo(infos, SsrcLine(ssrc, attribute, value)) ==
            Assign(infos, ssrc, attribute, SkipLeading(value, ':'))
  {
    var first, second := "ssrc:" + ToDecimal(ssrc), attribute + ":" + value;
    SsrcField(ssrc);
    AttributePlain(attribute);
    CutLine(ToDecimal(ssrc), attribute, value);
    TokenizeFirstIs(first, ' ', second);
    assert second == attribute + [':'] + value;
    TokenizeFirstIs(attribute, ':', value);
  }

  lemma CutLine(number: string, attribute: string, value: string)
    ensures ("a=ssrc:" + number + " " + attribute + ":" + value)[2..] ==
            ("ssrc:" + number) + [' '] + (attribute + ":" + value)
  {
    assert "a=ssrc:"[2..] == "ssrc:";
    var rest := " " + attribute + ":" + value;
    assert "a=ssrc:" + number + " " + attribute + ":" + value == "a=ssrc:" + (number + rest);
    assert ("a=ssrc:" + (number + rest))[2..] == "ssrc:" + (number + rest);
    assert "ssrc:" + (number + rest) == ("ssrc:" + number) + rest;
    assert rest == [' '] + (attribute + ":" + value);
  }

  lemma SsrcField(ssrc: U32)
    ensures var field := "ssrc:" + ToDecimal(ssrc); Without(field, ' ') && FromDecimal(field[5..]) == Some(ssrc)
  {
    DecimalIsPlain(ssrc);
    DecimalRoundTrip(ssrc);
    assert ("ssrc:" + ToDecimal(ssrc))[5..] == ToDecimal(ssrc);
  }

  /** One that survives is stored, without ':' at its front. */
  lemma SsrcLineParses(s: State, ssrc: U32, attribute: string, value: string)
    requires IsAttribute(attribute) && ValueOk(value) && s.media == "video"
    ensures ParseLine(s, SsrcLine(ssrc, attribute, value)) ==
            WithVideo(s, Assign(s.video, ssrc, attribute, SkipLeading(value, ':')))
  {
    MarkersOfLine(ssrc, attribute, value);
    SsrcLineReads(s.video, ssrc, attribute, value);
  }

  lemma FindNone(infos: seq<SsrcInfo>, ssrc: U32)
    requires forall i :: 0 <= i < |infos| ==> infos[i].ssrcId != ssrc
    ensures Find(infos, ssrc) == |infos|
  {
  }

  lemma FindLast(infos: seq<SsrcInfo>, info: SsrcInfo)
    requires forall i :: 0 <= i < |infos| ==> infos[i].ssrcId != info.ssrcId
    ensures Find(infos + [info], info.ssrcId) == |infos|
  {
    var i := Find(infos + [info], info.ssrcId);
    assert (infos + [info])[|infos|].ssrcId == info.ssrcId;
    assert forall j :: 0 <= j < |infos| ==> (infos + [info])[j] == infos[j];
  }

  // ---------- The four lines of an ssrc ----------

  predicate NotIn(infos: seq<SsrcInfo>, ssrc: U32) {
    forall i :: 0 <= i < |infos| ==> infos[i].ssrcId != ssrc
  }

  // Assigning to the last ssrc.
  lemma AssignLast(infos: seq<SsrcInfo>, info: SsrcInfo, attribute: string, value: string)
    requires NotIn(infos, info.ssrcId)
    ensures Assign(infos + [info], info.ssrcId, attribute, value) ==
            if attribute == "cname" then Some(infos + [info.(cname := value)])
            else if attribute == "msid" then
              var fields := Split(value, ' ');
              if |fields| > 2 then None
              else Some(infos + [info.(streamId := fields[0], trackId := if |fields| == 2 then fields[1] else info.trackId)])
            else Some(infos + [info])
  {
    FindLast(infos, info);
    var all, n := infos + [info], |infos|;
    assert forall x: SsrcInfo :: all[n := x] == infos + [x];
  }

  lemma AssignFirst(infos: seq<SsrcInfo>, ssrc: U32, c: string)
    requires NotIn(infos, ssrc)
    ensures Assign(infos, ssrc, "cname", c) == Some(infos + [SsrcInfo(ssrc, c, "", "")])
  {
    FindNone(infos, ssrc);
    var empty, info := SsrcInfo(ssrc, "", "", ""), SsrcInfo(ssrc, c, "", "");
    assert (infos + [empty])[|infos| := info] == infos + [info];
  }

  // The stream and track id are found again in the value of an msid.
  lemma MsidReads(streamId: string, id: string)
    requires StreamIdSurvives(streamId) && IdSurvives(id)
    ensures var value := streamId + " " + id;
            SkipLeading(value, ':') == value && Split(value, ' ') == [streamId, id] && ValueOk(value)
  {
    var value := streamId + " " + id;
    assert value[0] != ':' by {
      if streamId != "" {
        assert value[0] == streamId[0];
      }
    }
    assert value == streamId + [' '] + id;
    SplitCons(streamId, ' ', id);
    SplitNone(id, ' ');
    MarkersOfMsid(streamId, id);
  }

  lemma MarkersOfMsid(streamId: string, id: string)
    ensures var value := streamId + [' '] + id;
            forall m :: m in {"m=", "m=group:BUNDLE", "a=ice-ufrag", "a=ice-pwd", "a=fingerprint", "a=ssrc-group:"} ==>
              (Contains(value, m) <==> Contains(streamId, m) || Contains(id, m))
  {
    ContainsEither(streamId, ' ', id, "m=");
    ContainsEither(streamId, ' ', id, "m=group:BUNDLE");
    ContainsEither(streamId, ' ', id, "a=ice-ufrag");
    ContainsEither(streamId, ' ', id, "a=ice-pwd");
    ContainsEither(streamId, ' ', id, "a=fingerprint");
    ContainsEither(streamId, ' ', id, "a=ssrc-group:");
  }

  // ---------- Reading a group line ----------

  function Decimals(ssrcs: seq<U32>): (fields: seq<string>)
    ensures |fields| == |ssrcs|
  {
    seq(|ssrcs|, i requires 0 <= i < |ssrcs| => ToDecimal(ssrcs[i]))
  }

  lemma {:induction false} NumbersRead(ssrcs: seq<U32>)
    ensures ParseNumbers(Decimals(ssrcs)) == Some(ssrcs)
  {
    if ssrcs != [] {
      var before, last := ssrcs[..|ssrcs| - 1], ssrcs[|ssrcs| - 1];
      NumbersRead(before);
      DecimalRoundTrip(last);
      assert Decimals(ssrcs)[..|ssrcs| - 1] == Decimals(before);
      assert Decimals(ssrcs)[|ssrcs| - 1] == ToDecimal(last);
      assert before + [last] == ssrcs;
    }
  }

  // Splitting puts what follows the last delimiter in a field of its own.
  lemma {:induction false} SplitSnoc(a: string, c: char, b: string)
    requires Without(b, c)
    ensures Split(a + [c] + b, c) == Split(a, c) + [b]
    decreases |a|
  {
    var k := IndexOf(a, c);
    if k == |a| {
      SplitCons(a, c, b);
      SplitNone(b, c);
    } else {
      var first, rest := a[..k], a[k + 1..];
      assert a == first + [c] + rest;
      assert a + [c] + b == first + [c] + (rest + [c] + b);
      SplitCons(first, c, rest + [c] + b);
      SplitSnoc(rest, c, b);
      assert [first] + (Split(rest, c) + [b]) == [first] + Split(rest, c) + [b];
    }
  }

  lemma {:induction false} NumbersPlain(ssrcs: seq<U32>)
    ensures Without(Numbers(ssrcs), '=')
  {
    if ssrcs != [] {
      NumbersPlain(ssrcs[..|ssrcs| - 1]);
      DecimalIsPlain(ssrcs[|ssrcs| - 1]);
    }
  }

  lemma {:induction false} NumbersSplit(first: string, ssrcs: seq<U32>)
    requires Without(first, ' ')
    ensures Split(first + Numbers(ssrcs), ' ') == [first] + Decimals(ssrcs)
  {
    if ssrcs == [] {
      assert first + Numbers(ssrcs) == first;
      SplitNone(first, ' ');
    } else {
      var before, last := ssrcs[..|ssrcs| - 1], ToDecimal(ssrcs[|ssrcs| - 1]);
      var text := first + Numbers(before);
      NumbersSplit(first, before);
      DecimalIsPlain(ssrcs[|ssrcs| - 1]);
      SplitSnoc(text, ' ', last);
      assert first + (Numbers(before) + " " + last) == text + [' '] + last;
      DecimalsSnoc(first, ssrcs);
    }
  }

  lemma DecimalsSnoc(first: string, ssrcs: seq<U32>)
    requires ssrcs != []
    ensures [first] + Decimals(ssrcs) ==
            [first] + Decimals(ssrcs[..|ssrcs| - 1]) + [ToDecimal(ssrcs[|ssrcs| - 1])]
  {
  }

  // The semantics follow the first ':'.
  lemma SemanticsRead(semantics: string)
    requires Without(semantics, ':') && semantics != ""
    ensures GetAttribute("ssrc-group:" + semantics) == semantics
  {
    TwoTokens("ssrc-group", semantics);
    assert "ssrc-group:" + semantics == "ssrc-group" + [':'] + semantics;
  }

  lemma TwoTokens(a: string, b: string)
    requires Without(a, ':') && Without(b, ':') && a != "" && b != ""
    ensures GetAttribute(a + [':'] + b) == b
  {
    SplitCons(a, ':', b);
    SplitNone(b, ':');
    var fields := [a] + [b];
    assert fields[1..] == [b] && [b][1..] == [];
    assert NonEmpty([b]) == [b];
    assert NonEmpty(fields) == [a] + [b];
  }

  lemma CutGroupLine(semantics: string, numbers: string)
    ensures var line := "a=ssrc-group:" + semantics + numbers;
            line[2..] == "ssrc-group:" + semantics + numbers && line == "a=ssrc-group:" + (semantics + numbers)
  {
    var rest := semantics + numbers;
    assert "a=ssrc-group:" + semantics + numbers == "a=ssrc-group:" + rest;
    assert "a=ssrc-group:"[2..] == "ssrc-group:";
    assert ("a=ssrc-group:" + rest)[2..] == "ssrc-group:" + rest == "ssrc-group:" + semantics + numbers;
  }

  // Numbers have no markers.
  lemma {:induction false} MarkersBeforeNumbers(first: string, ssrcs: seq<U32>, m: string)
    requires IsMarker(m) && Without(m, ' ')
    ensures Contains(first + Numbers(ssrcs), m) <==> Contains(first, m)
  {
    if ssrcs == [] {
      assert first + Numbers(ssrcs) == first;
    } else {
      var before, last := ssrcs[..|ssrcs| - 1], ToDecimal(ssrcs[|ssrcs| - 1]);
      MarkersBeforeNumbers(first, before, m);
      DecimalIsPlain(ssrcs[|ssrcs| - 1]);
      if Contains(last, m) {
        HasChar(last, m, 1);
      }
      ContainsEither(first + Numbers(before), ' ', last, m);
      assert first + Numbers(ssrcs) == first + Numbers(before) + [' '] + last;
    }
  }

  // A group line has the markers of its semantics, besides the one it starts with.
  lemma MarkersOfGroup(g: SsrcGroup)
    ensures var line := GroupLine(g);
            && Contains(line, "a=ssrc-group:")
            && Contains(line, "a=ssrc:") == Contains(g.semantics, "a=ssrc:")
            && Contains(line, "m=") == Contains(g.semantics, "m=")
            && Contains(line, "m=group:BUNDLE") == Contains(g.semantics, "m=group:BUNDLE")
            && Contains(line, "a=ice-ufrag") == Contains(g.semantics, "a=ice-ufrag")
            && Contains(line, "a=ice-pwd") == Contains(g.semantics, "a=ice-pwd")
            && Contains(line, "a=fingerprint") == Contains(g.semantics, "a=fingerprint")
  {
    CutGroupLine(g.semantics, Numbers(g.ssrcs));
    MarkersAfterGroupHead(g.semantics, g.ssrcs);
  }

  lemma MarkersAfterGroupHead(x: string, ssrcs: seq<U32>)
    ensures var line := "a=ssrc-group:" + (x + Numbers(ssrcs));
            && Contains(line, "a=ssrc-group:")
            && Contains(line, "a=ssrc:") == Contains(x, "a=ssrc:")
            && Contains(line, "m=") == Contains(x, "m=")
            && Contains(line, "m=group:BUNDLE") == Contains(x, "m=group:BUNDLE")
            && Contains(line, "a=ice-ufrag") == Contains(x, "a=ice-ufrag")
            && Contains(line, "a=ice-pwd") == Contains(x, "a=ice-pwd")
            && Contains(line, "a=fingerprint") == Contains(x, "a=fingerprint")
  {
    var head := "a=ssrc-group:";
    assert head <= head + (x + Numbers(ssrcs));
    MarkerInFrontOrRest(head, x + Numbers(ssrcs), "a=ssrc-group:");
    MarkerOfGroup(head, x, ssrcs, "a=ssrc:", 6);
    MarkerOfGroup(head, x, ssrcs, "m=", 0);
    MarkerOfGroup(head, x, ssrcs, "m=group:BUNDLE", 0);
    MarkerOfGroup(head, x, ssrcs, "a=ice-ufrag", 2);
    MarkerOfGroup(head, x, ssrcs, "a=ice-pwd", 2);
    MarkerOfGroup(head, x, ssrcs, "a=fingerprint", 2);
  }

  lemma MarkerOfGroup(head: string, x: string, ssrcs: seq<U32>, m: string, k: nat)
    requires head == "a=ssrc-group:" && IsMarker(m) && Without(m, ' ') && k < |head| && k < |m| && head[k] != m[k]
    ensures Contains(head + (x + Numbers(ssrcs)), m) <==> Contains(x, m)
  {
    MarkerInRest(head, x + Numbers(ssrcs), m, k);
    MarkersBeforeNumbers(x, ssrcs, m);
  }

  // A group line is no transport attribute that could be wrong.
  lemma GroupTransportOk(g: SsrcGroup)
    requires SemanticsSurvive(g.semantics)
    ensures TransportOk(GroupLine(g))
  {
    MarkersOfGroup(g);
    if Contains(g.semantics, "a=ice-ufrag") || Contains(g.semantics, "a=ice-pwd") {
      var rest := g.semantics + Numbers(g.ssrcs);
      NumbersNoColon(g.ssrcs);
      TwoTokens("a=ssrc-group", rest);
      CutGroupLine(g.semantics, Numbers(g.ssrcs));
      assert GroupLine(g) == "a=ssrc-group" + [':'] + rest;
    }
  }

  lemma {:induction false} NumbersNoColon(ssrcs: seq<U32>)
    ensures Without(Numbers(ssrcs), ':')
  {
    if ssrcs != [] {
      NumbersNoColon(ssrcs[..|ssrcs| - 1]);
      DecimalIsPlain(ssrcs[|ssrcs| - 1]);
    }
  }

  /** A group line adds its group. */
  lemma GroupLineReads(s: State, g: SsrcGroup)
    requires SemanticsSurvive(g.semantics) && g.ssrcs != [] && s.media == "video"
    ensures ParseLine(s, GroupLine(g)) == Some(s.(groups := s.groups + [g]))
  {
    MarkersOfGroup(g);
    if Contains(g.semantics, "a=ssrc:") {
      HasChar(g.semantics, "a=ssrc:", 6);
    }
    GroupTransportOk(g);
    GroupParsed(s.groups, g);
  }

  lemma GroupParsed(groups: seq<SsrcGroup>, g: SsrcGroup)
    requires SemanticsSurvive(g.semantics) && g.ssrcs != []
    ensures ParseSsrcGroupInfo(groups, GroupLine(g)) == Some(groups + [g])
  {
    var first := "ssrc-group:" + g.semantics;
    SemanticsRead(g.semantics);
    NumbersSplit(first, g.ssrcs);
    CutGroupLine(g.semantics, Numbers(g.ssrcs));
    MarkersOfGroup(g);
    NumbersRead(g.ssrcs);
    GroupParses(groups, GroupLine(g), first, Decimals(g.ssrcs), g);
  }

  lemma GroupParses(groups: seq<SsrcGroup>, line: string, first: string, numbers: seq<string>, g: SsrcGroup)
    requires |line| >= 2 && Contains(line, "a=ssrc-group:") && Split(line[2..], ' ') == [first] + numbers
    requires GetAttribute(first) == g.semantics != "" && ParseNumbers(numbers) == Some(g.ssrcs) && numbers != []
    ensures ParseSsrcGroupInfo(groups, line) == Some(groups + [g])
  {
    assert ([first] + numbers)[1..] == numbers;
  }
}
