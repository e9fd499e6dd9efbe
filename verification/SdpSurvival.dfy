/** What comes out of reading printed lines: whatever tracks were printed, if no line is refused
    those that are read are well formed and their strings survive. */
module SdpSurvival {
  import opened Basics
  import opened SdpText
  import opened SdpTracks
  import opened SdpLines

  // ---------- What is read is well formed ----------

  predicate DistinctIds(infos: seq<SsrcInfo>) {
    forall i, j :: 0 <= i < j < |infos| ==> infos[i].ssrcId != infos[j].ssrcId
  }

  lemma AssignDistinct(infos: seq<SsrcInfo>, ssrc: U32, attribute: string, value: string)
    requires DistinctIds(infos)
    ensures var r := Assign(infos, ssrc, attribute, value); r.Some? ==> DistinctIds(r.value)
  {
    assert DistinctIds(WithSsrc(infos, ssrc));
  }

  lemma VideoDistinct(infos: seq<SsrcInfo>, line: string)
    requires DistinctIds(infos)
    ensures var r := ParseSsrcInfo(infos, line); r.Some? ==> DistinctIds(r.value)
  {
    if |line| >= 2 {
      var cut := TokenizeFirst(line[2..], ' ');
      if cut.Some? && |cut.value.0| >= 5 {
        var ssrc, attribute := FromDecimal(cut.value.0[5..]), TokenizeFirst(cut.value.1, ':');
        if ssrc.Some? && attribute.Some? {
          AssignDistinct(infos, ssrc.value, attribute.value.0, attribute.value.1);
        }
      }
    }
  }

  lemma {:induction false} LinesDistinct(s: State, lines: seq<string>)
    requires DistinctIds(s.video) && ParseLines(s, lines).Some?
    ensures DistinctIds(ParseLines(s, lines).value.video)
  {
    if lines != [] {
      var n := |lines| - 1;
      LinesDistinct(s, lines[..n]);
      VideoDistinct(ParseLines(s, lines[..n]).value.video, lines[n]);
    }
  }

  predicate NoSsrc(tracks: seq<StreamParams>, x: U32) {
    forall t :: t in tracks ==> x !in t.ssrcs
  }

  lemma {:induction false} CreatedWithout(infos: seq<SsrcInfo>, x: U32)
    requires NotIn(infos, x)
    ensures NoSsrc(CreateTracks(infos, []), x)
  {
    if infos != [] {
      CreatedWithout(infos[..|infos| - 1], x);
    }
  }

  lemma OneMoreSsrc(t: StreamParams, u: StreamParams, x: U32)
    requires (t.ssrcs == [] && t.ssrcGroups == []) || GoodTrack(t)
    requires x !in t.ssrcs && u.ssrcs == t.ssrcs + [x] && u.ssrcGroups == t.ssrcGroups
    ensures GoodTrack(u)
  {
    assert forall g :: g in t.ssrcGroups ==> GoodGroup(g, t);
  }

  lemma AddedGood(tracks: seq<StreamParams>, info: SsrcInfo)
    requires GoodTracks(tracks) && NoSsrc(tracks, info.ssrcId)
    ensures GoodTracks(AddToTrack(tracks, info))
  {
    var r, k := AddToTrack(tracks, info), FindTrack(tracks, info.trackId);
    assert forall i :: 0 <= i < |r| && i != k ==> r[i] == tracks[i] && tracks[i] in tracks;
    var before := if k < |tracks| then tracks[k] else StreamParams(info.trackId, [], [], "", "");
    assert k < |tracks| ==> tracks[k] in tracks;
    OneMoreSsrc(before, r[k], info.ssrcId);
    SsrcsApart(tracks, r, k, before, info.ssrcId);
  }

  lemma SsrcsApart(tracks: seq<StreamParams>, r: seq<StreamParams>, k: nat, before: StreamParams, x: U32)
    requires GoodTracks(tracks) && NoSsrc(tracks, x) && k < |r| && |tracks| <= |r| <= |tracks| + 1 && (k == |tracks| || |r| == |tracks|)
    requires forall i :: 0 <= i < |r| && i != k ==> i < |tracks| && r[i] == tracks[i] && tracks[i] in tracks
    requires before.ssrcs == (if k < |tracks| then tracks[k].ssrcs else []) && r[k].ssrcs == before.ssrcs + [x]
    ensures forall i, j, y :: 0 <= i < j < |r| && y in r[i].ssrcs ==> y !in r[j].ssrcs
  {
  }

  lemma {:induction false} CreatedGood(infos: seq<SsrcInfo>)
    requires DistinctIds(infos)
    ensures GoodTracks(CreateTracks(infos, []))
  {
    if infos != [] {
      var n := |infos| - 1;
      CreatedGood(infos[..n]);
      CreatedWithout(infos[..n], infos[n].ssrcId);
      AddedGood(CreateTracks(infos[..n], []), infos[n]);
    }
  }

  lemma AttachedGood(tracks: seq<StreamParams>, g: SsrcGroup)
    requires GoodTracks(tracks)
    ensures GoodTracks(Attach(tracks, g))
  {
    var r := Attach(tracks, g);
    forall i | 0 <= i < |r| ensures GoodTrack(r[i]) {
      assert tracks[i] in tracks && r[i] == AttachTo(g, tracks[i]);
      assert forall h :: h in tracks[i].ssrcGroups ==> GoodGroup(h, tracks[i]);
    }
    assert forall i :: 0 <= i < |r| ==> r[i].id == tracks[i].id && r[i].ssrcs == tracks[i].ssrcs;
  }

  lemma {:induction false} AllAttachedGood(tracks: seq<StreamParams>, groups: seq<SsrcGroup>)
    requires GoodTracks(tracks)
    ensures GoodTracks(AttachAll(tracks, groups))
  {
    if groups != [] {
      var n := |groups| - 1;
      AllAttachedGood(tracks, groups[..n]);
      AttachedGood(AttachAll(tracks, groups[..n]), groups[n]);
    }
  }

  /** The tracks that any lines are read as are well formed. */
  lemma TracksAreGood(s: State, lines: seq<string>)
    requires s.video == [] && ParseLines(s, lines).Some?
    ensures GoodTracks(VideoTracks(ParseLines(s, lines).value))
  {
    var r := ParseLines(s, lines).value;
    LinesDistinct(s, lines);
    CreatedGood(r.video);
    AllAttachedGood(CreateTracks(r.video, []), r.groups);
  }

  // ---------- Pieces of a text ----------

  lemma FirstField(s: string, c: char)
    ensures Split(s, c)[0] <= s
  {
  }

  // Splitting after a prefix without the delimiter.
  lemma FieldsAfter(a: string, b: string, c: char)
    requires Without(a, c)
    ensures Split(a + b, c)[0] == a + Split(b, c)[0] && Split(a + b, c)[1..] == Split(b, c)[1..]
  {
    var k := IndexOf(b, c);
    if k == |b| {
      SplitNone(b, c);
      SplitNone(a + b, c);
    } else {
      var x, y := b[..k], b[k + 1..];
      assert b == x + [c] + y && a + b == (a + x) + [c] + y;
      SplitCons(x, c, y);
      SplitCons(a + x, c, y);
      assert ([a + x] + Split(y, c))[1..] == Split(y, c) == ([x] + Split(y, c))[1..];
    }
  }

  lemma {:induction false} SplitJoin(a: string, c: char, b: string)
    ensures Split(a + [c] + b, c) == Split(a, c) + Split(b, c)
    decreases |a|
  {
    var k := IndexOf(a, c);
    if k == |a| {
      SplitCons(a, c, b);
      SplitNone(a, c);
    } else {
      var x, y := a[..k], a[k + 1..];
      assert a == x + [c] + y;
      SplitJoin(y, c, b);
      SplitJoinStep(x, c, y, b);
    }
  }

  lemma SplitJoinStep(x: string, c: char, y: string, b: string)
    requires Without(x, c) && Split(y + [c] + b, c) == Split(y, c) + Split(b, c)
    ensures Split(x + [c] + y + [c] + b, c) == Split(x + [c] + y, c) + Split(b, c)
  {
    Regroup(x, [c], y, [c] + b);
    Regroup(x + [c], y, [c], b);
    Regroup([], y, [c], b);
    assert [] + y == y;
    SplitCons(x, c, y + [c] + b);
    SplitCons(x, c, y);
    Regroup([], [x], Split(y, c), Split(b, c));
    assert [] + [x] == [x];
  }

  lemma Regroup<T>(a: seq<T>, b: seq<T>, c: seq<T>, d: seq<T>)
    ensures a + b + c + d == a + b + (c + d)
  {
  }

  lemma {:induction false} NonEmptyJoin(a: seq<string>, b: seq<string>)
    ensures NonEmpty(a + b) == NonEmpty(a) + NonEmpty(b)
  {
    if a == [] {
      assert a + b == b;
    } else {
      assert (a + b)[1..] == a[1..] + b;
      NonEmptyJoin(a[1..], b);
    }
  }

  lemma TokenizeJoin(a: string, c: char, b: string)
    ensures Tokenize(a + [c] + b, c) == Tokenize(a, c) + Tokenize(b, c)
  {
    SplitJoin(a, c, b);
    NonEmptyJoin(Split(a, c), Split(b, c));
  }

  lemma {:induction false} SplitWithout(s: string, c: char, d: char)
    requires Without(s, d)
    ensures forall f :: f in Split(s, c) ==> Without(f, d)
    decreases |s|
  {
    var k := IndexOf(s, c);
    if k < |s| {
      SplitWithout(s[k + 1..], c, d);
    }
  }

  lemma {:induction false} TokenizeSome(s: string, d: char, i: nat)
    requires i < |s| && s[i] != d
    ensures |Tokenize(s, d)| >= 1
    decreases |s|
  {
    var k := IndexOf(s, d);
    if k == |s| {
      assert Split(s, d) == [s];
    } else {
      var fields := [s[..k]] + Split(s[k + 1..], d);
      assert Split(s, d) == fields && fields[1..] == Split(s[k + 1..], d);
      if k == 0 {
        assert s[1..][i - 1] == s[i];
        TokenizeSome(s[1..], d, i - 1);
      }
    }
  }

  // What looks like a bundle line has a ':' in the middle.
  lemma BundleIsTwo(p: string)
    requires Contains(p, "m=group:BUNDLE")
    ensures |Tokenize(p, ':')| >= 2
  {
    var m := "m=group:BUNDLE";
    var i :| 0 <= i <= |p| && At(p, i, m);
    var a, b := p[..i + 7], p[i + 8..];
    assert p[i..i + |m|] == m;
    assert p[i] == m[0] && p[i + 7] == m[7] == ':' && p[i + 8] == m[8];
    assert p == a + [':'] + b && a[i] == 'm' && b[0] == 'B';
    TokenizeSome(a, ':', i);
    TokenizeSome(b, ':', 0);
    TokenizeJoin(a, ':', b);
  }

  lemma {:induction false} SkipKeepsMarkers(c: string, m: string)
    requires IsMarker(m)
    ensures Contains(SkipLeading(c, ':'), m) <==> Contains(c, m)
  {
    if c != "" && c[0] == ':' {
      SkipKeepsMarkers(c[1..], m);
      if i :| 0 <= i <= |c| && At(c, i, m) {
        assert c[i] == c[i..i + |m|][0];
        AtPart(c, 1, |c|, i, m);
        assert c[1..|c|] == c[1..];
      }
      if j :| 0 <= j <= |c[1..]| && At(c[1..], j, m) {
        AtPart(c, 1, |c|, j + 1, m);
        assert c[1..|c|] == c[1..];
      }
    }
  }

  lemma SkippedValueOk(c: string)
    requires ValueOk(c)
    ensures ValueOk(SkipLeading(c, ':'))
  {
    SkipKeepsMarkers(c, "m=");
    SkipKeepsMarkers(c, "m=group:BUNDLE");
    SkipKeepsMarkers(c, "a=ice-ufrag");
    SkipKeepsMarkers(c, "a=ice-pwd");
    SkipKeepsMarkers(c, "a=fingerprint");
    SkipKeepsMarkers(c, "a=ssrc-group:");
  }

  // ---------- What is stored from an ssrc line ----------

  predicate InfoOk(info: SsrcInfo) {
    CnameSurvives(info.cname) && StreamIdSurvives(info.streamId) && IdSurvives(info.trackId)
  }

  // The ids that an msid would be cut into do not look like the start of a section.
  ghost predicate FieldsOk(v: string) {
    |Split(v, ' ')| <= 2 ==> forall f :: f in Split(v, ' ') ==> MediaOk(f)
  }

  predicate InfosOk(infos: seq<SsrcInfo>) {
    forall info :: info in infos ==> InfoOk(info)
  }

  lemma FieldHasNoMarks(s: string, field: string)
    requires NoMarks(s) && field in Split(s, ' ')
    ensures NoMarks(field)
  {
    InSomeField(s, ' ', "a=ice-ufrag");
    InSomeField(s, ' ', "a=ice-pwd");
    InSomeField(s, ' ', "a=fingerprint");
    InSomeField(s, ' ', "a=ssrc-group:");
  }

  lemma EmptyIsOk(ssrc: U32)
    ensures InfoOk(SsrcInfo(ssrc, "", "", ""))
  {
  }

  lemma AssignKeeps(infos: seq<SsrcInfo>, ssrc: U32, attribute: string, value: string)
    requires InfosOk(infos) && ValueOk(value) && (value != "" ==> value[0] != ':')
    requires attribute == "msid" ==> FieldsOk(value)
    ensures var r := Assign(infos, ssrc, attribute, value); r.Some? ==> InfosOk(r.value)
  {
    EmptyIsOk(ssrc);
    var all, i, fields := WithSsrc(infos, ssrc), Find(infos, ssrc), Split(value, ' ');
    assert InfosOk(all);
    assert all[i] in all && fields[0] in fields;
    FieldHasNoMarks(value, fields[0]);
    FirstField(value, ' ');
    if |fields| == 2 {
      assert fields[1] in fields;
      FieldHasNoMarks(value, fields[1]);
    }
  }

  // The first space in an ssrc line comes after the number.
  lemma SplitSsrcLine(ssrc: U32, attribute: string, value: string)
    requires IsAttribute(attribute)
    ensures Split(SsrcLine(ssrc, attribute, value), ' ') ==
            ["a=ssrc:" + ToDecimal(ssrc), attribute + ":" + Split(value, ' ')[0]] + Split(value, ' ')[1..]
  {
    var first, second := "a=ssrc:" + ToDecimal(ssrc), attribute + ":" + value;
    DecimalIsPlain(ssrc);
    AttributePlain(attribute);
    assert SsrcLine(ssrc, attribute, value) == first + [' '] + second;
    SplitCons(first, ' ', second);
    FieldsAfter(attribute + ":", value, ' ');
    assert second == (attribute + ":") + value;
    HeadAndTail(first, Split(second, ' '), attribute + ":" + Split(value, ' ')[0], Split(value, ' ')[1..]);
  }

  lemma HeadAndTail(first: string, fields: seq<string>, second: string, rest: seq<string>)
    requires fields != [] && fields[0] == second && fields[1..] == rest
    ensures [first] + fields == [first, second] + rest
  {
    assert fields == [second] + rest;
  }

  // One with the start of a section in it leads out of the video section, or fails.
  lemma MediaLost(media: string, ssrc: U32, attribute: string, value: string)
    requires IsAttribute(attribute) && !MediaOk(value)
    ensures var next := NextMedia(media, SsrcLine(ssrc, attribute, value));
            && (next.Some? ==> next.value != "video")
            && (Without(value, ' ') ==> next.None?)
  {
    MarkersOfLine(ssrc, attribute, value);
    SplitSsrcLine(ssrc, attribute, value);
    assert ("a=ssrc:" + ToDecimal(ssrc))[2..][0] == 's';
    if Without(value, ' ') {
      SplitNone(value, ' ');
    }
  }

  // It has too many ':' for a transport attribute.
  lemma NoAttribute(ssrc: U32, attribute: string, value: string, m: string)
    requires IsAttribute(attribute) && IsMarker(m) && Contains(value, m)
    ensures GetAttribute(SsrcLine(ssrc, attribute, value)) == ""
  {
    var i :| 0 <= i <= |value| && At(value, i, m);
    assert value[i] == value[i..i + |m|][0];
    DecimalIsPlain(ssrc);
    var b := ToDecimal(ssrc) + " " + attribute;
    assert "a=ssrc:" == "a=ssrc" + [':'];
    assert SsrcLine(ssrc, attribute, value) == "a=ssrc" + [':'] + (b + [':'] + value);
    assert "a=ssrc"[0] == 'a' && b[0] == ToDecimal(ssrc)[0];
    ThreeTokens("a=ssrc", b, value, i);
  }

  lemma ThreeTokens(a: string, b: string, s: string, i: nat)
    requires a != "" && a[0] != ':' && b != "" && b[0] != ':' && i < |s| && s[i] != ':'
    ensures |Tokenize(a + [':'] + (b + [':'] + s), ':')| >= 3
  {
    TokenizeSome(a, ':', 0);
    TokenizeSome(b, ':', 0);
    TokenizeSome(s, ':', i);
    TokenizeJoin(a, ':', b + [':'] + s);
    TokenizeJoin(b, ':', s);
  }

  // Nor is the end of the number the name of a digest.
  lemma NoFingerprint(ssrc: U32, attribute: string, value: string)
    requires IsAttribute(attribute)
    ensures var items := Tokenize(SsrcLine(ssrc, attribute, value), ' ');
            |items| == 2 && |items[0]| >= 14 ==> ToLower(items[0][14..]) !in DIGESTS
  {
    var first, number := "a=ssrc:" + ToDecimal(ssrc), ToDecimal(ssrc);
    SplitSsrcLine(ssrc, attribute, value);
    assert Tokenize(SsrcLine(ssrc, attribute, value), ' ')[0] == first;
    if |first| > 14 {
      assert first[14] == number[7] && IsDigit(number[7]);
      assert ToLower(first[14..])[0] == number[7];
    }
  }

  // Nor is what follows the number a list of numbers.
  lemma NoGroup(groups: seq<SsrcGroup>, ssrc: U32, attribute: string, value: string)
    requires IsAttribute(attribute) && Contains(value, "a=ssrc-group:")
    ensures ParseSsrcGroupInfo(groups, SsrcLine(ssrc, attribute, value)).None?
  {
    var line, number := SsrcLine(ssrc, attribute, value), ToDecimal(ssrc);
    MarkersOfLine(ssrc, attribute, value);
    CutLine(number, attribute, value);
    SsrcField(ssrc);
    AttributePlain(attribute);
    var first, second := "ssrc:" + number, attribute + ":" + value;
    SplitCons(first, ' ', second);
    var fields := [first] + Split(second, ' ');
    assert fields[1..] == Split(second, ' ');
    FieldsAfter(attribute + ":", value, ' ');
    assert second == (attribute + ":") + value;
    NumbersFail(Split(second, ' '));
  }

  lemma {:induction false} NumbersFail(fields: seq<string>)
    requires fields != [] && fields[0] != "" && !IsDigit(fields[0][0]) && fields[0][0] != '-'
    ensures ParseNumbers(fields).None?
  {
    if |fields| == 1 {
      assert fields[0] == fields[|fields| - 1] && !AllDigits(fields[0]);
    } else {
      NumbersFail(fields[..|fields| - 1]);
    }
  }

  // Accepted in the video section, a line has none of the marks.
  lemma AcceptedValue(s: State, ssrc: U32, attribute: string, value: string)
    requires IsAttribute(attribute)
    requires NextMedia(s.media, SsrcLine(ssrc, attribute, value)) == Some("video")
    requires ParseLine(s, SsrcLine(ssrc, attribute, value)).Some?
    ensures ValueOk(value)
  {
    var line := SsrcLine(ssrc, attribute, value);
    assert TransportOk(line) && ParseSsrcGroupInfo(s.groups, line).Some?;
    MarkersOfLine(ssrc, attribute, value);
    TransportFilters(ssrc, attribute, value);
    if !MediaOk(value) {
      MediaLost(s.media, ssrc, attribute, value);
    }
    if Contains(value, "a=ssrc-group:") {
      NoGroup(s.groups, ssrc, attribute, value);
    }
  }

  lemma TransportFilters(ssrc: U32, attribute: string, value: string)
    requires IsAttribute(attribute) && TransportOk(SsrcLine(ssrc, attribute, value))
    ensures !Contains(value, "a=ice-ufrag") && !Contains(value, "a=ice-pwd") && !Contains(value, "a=fingerprint")
  {
    MarkersOfLine(ssrc, attribute, value);
    if Contains(value, "a=ice-ufrag") {
      NoAttribute(ssrc, attribute, value, "a=ice-ufrag");
    } else if Contains(value, "a=ice-pwd") {
      NoAttribute(ssrc, attribute, value, "a=ice-pwd");
    } else if Contains(value, "a=fingerprint") {
      NoFingerprint(ssrc, attribute, value);
    }
  }

  predicate GroupsOk(groups: seq<SsrcGroup>) {
    forall g :: g in groups ==> SemanticsSurvive(g.semantics)
  }

  lemma {:induction false} SkippedFieldsOk(v: string)
    requires FieldsOk(v)
    ensures FieldsOk(SkipLeading(v, ':'))
  {
    if v != "" && v[0] == ':' {
      var rest := v[1..];
      assert v == ":" + rest;
      FieldsAfter(":", rest, ' ');
      var f := Split(rest, ' ')[0];
      assert Split(v, ' ')[0] == ":" + f && ":" + f in Split(v, ' ');
      assert SkipLeading(":" + f, ':') == SkipLeading(f, ':') by {
        assert (":" + f)[1..] == f;
      }
      OneColonLess(f);
      assert forall g :: g in Split(rest, ' ') ==> g == f || g in Split(rest, ' ')[1..];
      assert forall g :: g in Split(v, ' ')[1..] ==> g in Split(v, ' ');
      assert FieldsOk(rest);
      SkippedFieldsOk(rest);
    }
  }

  lemma OneColonLess(f: string)
    ensures MediaOk(":" + f) <==> MediaOk(f)
  {
    assert (":" + f)[1..] == f;
    SkipKeepsMarkers(":" + f, "m=");
    SkipKeepsMarkers(f, "m=");
    SkipKeepsMarkers(":" + f, "m=group:BUNDLE");
    SkipKeepsMarkers(f, "m=group:BUNDLE");
  }

  /** What set_remote_sdp stores of an ssrc line survives, if no stream id or id that it holds
      looks like the start of a section. */
  lemma SsrcLineFilters(s: State, ssrc: U32, attribute: string, value: string)
    requires IsAttribute(attribute) && ParseLine(s, SsrcLine(ssrc, attribute, value)).Some?
    requires InfosOk(s.video) && GroupsOk(s.groups) && (attribute == "msid" ==> FieldsOk(value))
    ensures var r := ParseLine(s, SsrcLine(ssrc, attribute, value)).value; InfosOk(r.video) && GroupsOk(r.groups)
  {
    var line := SsrcLine(ssrc, attribute, value);
    if NextMedia(s.media, line) == Some("video") {
      AcceptedValue(s, ssrc, attribute, value);
      MarkersOfLine(ssrc, attribute, value);
      SsrcLineReads(s.video, ssrc, attribute, value);
      SkippedValueOk(value);
      if attribute == "msid" {
        SkippedFieldsOk(value);
      }
      AssignKeeps(s.video, ssrc, attribute, SkipLeading(value, ':'));
    }
  }

  // ---------- What is stored from a group line ----------

  // The parts of a group line, for any semantics: up to the first space it holds p.
  lemma GroupFields(g: SsrcGroup)
    ensures var line, rest := GroupLine(g), g.semantics + Numbers(g.ssrcs);
            var p := Split(rest, ' ')[0];
            && line[2..] == "ssrc-group:" + rest
            && Split(line[2..], ' ')[0] == "ssrc-group:" + p && Split(line[2..], ' ')[1..] == Split(rest, ' ')[1..]
            && Split(line, ' ')[0] == "a=ssrc-group:" + p
  {
    var rest := g.semantics + Numbers(g.ssrcs);
    CutGroupLine(g.semantics, Numbers(g.ssrcs));
    GroupHeadFields(rest);
  }

  lemma GroupHeadFields(rest: string)
    ensures var p := Split(rest, ' ')[0];
            && Split("ssrc-group:" + rest, ' ')[0] == "ssrc-group:" + p
            && Split("ssrc-group:" + rest, ' ')[1..] == Split(rest, ' ')[1..]
            && Split("a=ssrc-group:" + rest, ' ')[0] == "a=ssrc-group:" + p
  {
    FieldsAfter("ssrc-group:", rest, ' ');
    FieldsAfter("a=ssrc-group:", rest, ' ');
  }

  lemma {:induction false} NumbersAreDigits(fields: seq<string>)
    requires ParseNumbers(fields).Some?
    ensures forall f :: f in fields ==> Without(f, '=')
  {
    if fields != [] {
      var n := |fields| - 1;
      NumbersAreDigits(fields[..n]);
      var digits := if fields[n] != "" && fields[n][0] == '-' then fields[n][1..] else fields[n];
      assert AllDigits(digits);
      assert forall i :: 0 <= i < |fields[n]| ==> fields[n][i] == '-' || IsDigit(fields[n][i]);
      assert forall f {:trigger f in fields} :: f in fields ==> f in fields[..n] || f == fields[n];
    }
  }

  // A marker lies in the first field if the others are numbers.
  lemma MarkerInFirst(rest: string, m: string)
    requires IsMarker(m) && Without(m, ' ') && ParseNumbers(Split(rest, ' ')[1..]).Some?
    ensures Contains(rest, m) <==> Contains(Split(rest, ' ')[0], m)
  {
    var fields := Split(rest, ' ');
    InSomeField(rest, ' ', m);
    NumbersAreDigits(fields[1..]);
    assert fields[0] in fields;
    if f :| f in fields && Contains(f, m) {
      if f in fields[1..] {
        HasChar(f, m, 1);
      } else {
        assert f == fields[0];
      }
    }
  }

  // And in the one token of that field.
  lemma MarkerInToken(p: string, x: string, m: string)
    requires IsMarker(m) && Without(m, ':') && Tokenize(p, ':') == [x]
    ensures Contains(p, m) <==> Contains(x, m)
  {
    var fields := Split(p, ':');
    InSomeField(p, ':', m);
    NonEmptyIn(fields);
    assert x in [x];
    if f :| f in fields && Contains(f, m) {
      assert f != "" && f in [x];
    }
  }

  lemma TokensAfter(a: string, p: string)
    requires Without(a, ':') && a != "" && GetAttribute(a + [':'] + p) != ""
    ensures Tokenize(p, ':') == [GetAttribute(a + [':'] + p)]
  {
    TokenizeJoin(a, ':', p);
    SplitNone(a, ':');
    assert [a][1..] == [] && NonEmpty([a]) == [a];
    assert Tokenize(p, ':') == ([a] + Tokenize(p, ':'))[1..];
  }

  // What is stored, x, is in the line once, and has its markers.
  predicate IsStored(g: SsrcGroup, x: string) {
    var rest := g.semantics + Numbers(g.ssrcs);
    var p := Split(rest, ' ')[0];
    Tokenize(p, ':') == [x] && ParseNumbers(Split(rest, ' ')[1..]).Some?
  }

  lemma StoredMarker(g: SsrcGroup, x: string, m: string, k: nat)
    requires IsStored(g, x) && IsMarker(m) && Without(m, ' ') && Without(m, ':')
    requires k < |m| && k < 13 && "a=ssrc-group:"[k] != m[k]
    ensures Contains(GroupLine(g), m) <==> Contains(x, m)
  {
    var rest := g.semantics + Numbers(g.ssrcs);
    CutGroupLine(g.semantics, Numbers(g.ssrcs));
    MarkerInRest("a=ssrc-group:", rest, m, k);
    MarkerInFirst(rest, m);
    MarkerInToken(Split(rest, ' ')[0], x, m);
  }

  lemma StoredPlain(g: SsrcGroup, x: string)
    requires IsStored(g, x)
    ensures x != "" && Without(x, ':') && Without(x, ' ')
  {
    var p := Split(g.semantics + Numbers(g.ssrcs), ' ')[0];
    NonEmptyIn(Split(p, ':'));
    assert x in [x];
    SplitWithout(p, ':', ' ');
  }

  // No start of a section is stored ...
  lemma StoredMedia(media: string, g: SsrcGroup, x: string)
    requires IsStored(g, x) && NextMedia(media, GroupLine(g)) == Some("video")
    ensures !Contains(x, "m=")
  {
    StoredMarker(g, x, "m=", 0);
    NoBundle(g, x);
    GroupFields(g);
    LeadsAway(media, GroupLine(g), Split(g.semantics + Numbers(g.ssrcs), ' ')[0]);
  }

  lemma LeadsAway(media: string, line: string, p: string)
    requires Split(line, ' ')[0] == "a=ssrc-group:" + p && NextMedia(media, line) == Some("video")
    ensures Contains(line, "m=group:BUNDLE") || !Contains(line, "m=")
  {
    assert ("a=ssrc-group:" + p)[2..][0] == 's';
  }

  lemma NoBundle(g: SsrcGroup, x: string)
    requires IsStored(g, x)
    ensures !Contains(GroupLine(g), "m=group:BUNDLE")
  {
    var m, rest := "m=group:BUNDLE", g.semantics + Numbers(g.ssrcs);
    CutGroupLine(g.semantics, Numbers(g.ssrcs));
    MarkerInRest("a=ssrc-group:", rest, m, 0);
    MarkerInFirst(rest, m);
    if Contains(Split(rest, ' ')[0], m) {
      BundleIsTwo(Split(rest, ' ')[0]);
    }
  }

  // ... nor what looks like a fingerprint, unless it is taken for something else.
  lemma StoredTransport(g: SsrcGroup, x: string)
    requires IsStored(g, x) && TransportOk(GroupLine(g))
    ensures Contains(x, "a=fingerprint") ==> Contains(x, "a=ice-ufrag") || Contains(x, "a=ice-pwd")
  {
    var line := GroupLine(g);
    var p := Split(g.semantics + Numbers(g.ssrcs), ' ')[0];
    StoredMarker(g, x, "a=ice-ufrag", 2);
    StoredMarker(g, x, "a=ice-pwd", 2);
    StoredMarker(g, x, "a=fingerprint", 2);
    if Contains(x, "a=fingerprint") && !Contains(x, "a=ice-ufrag") && !Contains(x, "a=ice-pwd") {
      GroupFields(g);
      MarkerInToken(p, x, "a=fingerprint");
      NoDigest(line, p);
    }
  }

  lemma NoDigest(line: string, p: string)
    requires Split(line, ' ')[0] == "a=ssrc-group:" + p && Contains(p, "a=fingerprint")
    ensures var items := Tokenize(line, ' '); |items| == 2 && |items[0]| >= 14 ==> ToLower(items[0][14..]) !in DIGESTS
  {
    AfterFourteen(p);
    TooLong(p);
    FirstToken(line, ' ');
  }

  lemma FirstToken(s: string, c: char)
    requires Split(s, c)[0] != ""
    ensures Tokenize(s, c) != [] && Tokenize(s, c)[0] == Split(s, c)[0]
  {
  }

  lemma AfterFourteen(p: string)
    ensures var first := "a=ssrc-group:" + p; first != "" && (p != "" ==> |first| >= 14 && first[14..] == p[1..])
  {
  }

  lemma TooLong(p: string)
    requires Contains(p, "a=fingerprint")
    ensures ToLower(p[1..]) !in DIGESTS
  {
    var m := "a=fingerprint";
    assert |p| >= |m|;
  }

  lemma GroupTokens(p: string)
    requires GetAttribute("ssrc-group:" + p) != ""
    ensures Tokenize(p, ':') == [GetAttribute("ssrc-group:" + p)]
  {
    assert "ssrc-group:" + p == "ssrc-group" + [':'] + p;
    TokensAfter("ssrc-group", p);
  }

  lemma GroupIsStored(groups: seq<SsrcGroup>, g: SsrcGroup) returns (x: string)
    requires ParseSsrcGroupInfo(groups, GroupLine(g)).Some?
    ensures IsStored(g, x)
    ensures forall h :: h in ParseSsrcGroupInfo(groups, GroupLine(g)).value ==> h in groups || h.semantics == x
  {
    MarkersOfGroup(g);
    GroupFields(g);
    var p := Split(g.semantics + Numbers(g.ssrcs), ' ')[0];
    x := GetAttribute("ssrc-group:" + p);
    GroupTokens(p);
  }

  lemma GroupStored(s: State, g: SsrcGroup)
    requires NextMedia(s.media, GroupLine(g)) == Some("video") && ParseLine(s, GroupLine(g)).Some? && GroupsOk(s.groups)
    ensures GroupsOk(ParseLine(s, GroupLine(g)).value.groups)
  {
    assert ParseSsrcGroupInfo(s.groups, GroupLine(g)).Some? && TransportOk(GroupLine(g));
    var x := GroupIsStored(s.groups, g);
    StoredPlain(g, x);
    StoredMedia(s.media, g, x);
    StoredTransport(g, x);
  }

  // A group line is not taken for an ssrc line.
  lemma GroupKeepsVideo(s: State, g: SsrcGroup)
    requires ParseLine(s, GroupLine(g)).Some?
    ensures ParseLine(s, GroupLine(g)).value.video == s.video
  {
    var p := Split(g.semantics + Numbers(g.ssrcs), ' ')[0];
    GroupFields(g);
    SixthIsG(p);
    NoSsrcNumber(s.video, GroupLine(g), "ssrc-group:" + p);
  }

  lemma SixthIsG(p: string)
    ensures var first := "ssrc-group:" + p; |first| > 5 && first[5] == 'g'
  {
  }

  lemma NoSsrcNumber(infos: seq<SsrcInfo>, line: string, first: string)
    requires |line| >= 2 && Split(line[2..], ' ')[0] == first && |first| > 5 && first[5] == 'g'
    ensures ParseSsrcInfo(infos, line).Some? ==> ParseSsrcInfo(infos, line) == Some(infos)
  {
    FirstFieldCut(line[2..], ' ');
    assert first[5..][0] == 'g';
  }

  lemma FirstFieldCut(s: string, c: char)
    ensures var cut := TokenizeFirst(s, c); cut.Some? ==> cut.value.0 == Split(s, c)[0]
  {
  }

  /** What set_remote_sdp stores of a group line survives, whatever was printed. */
  lemma GroupLineFilters(s: State, g: SsrcGroup)
    requires ParseLine(s, GroupLine(g)).Some? && InfosOk(s.video) && GroupsOk(s.groups)
    ensures var r := ParseLine(s, GroupLine(g)).value; InfosOk(r.video) && GroupsOk(r.groups)
  {
    GroupKeepsVideo(s, g);
    if NextMedia(s.media, GroupLine(g)) == Some("video") {
      GroupStored(s, g);
    }
  }

  // ---------- All printed lines ----------

  // A line that build_ssrc prints for some tracks, with ids that are not the start of a section.
  ghost predicate Printed(line: string) {
    || (exists g: SsrcGroup :: line == GroupLine(g))
    || (exists ssrc: U32, attribute, value ::
          IsAttribute(attribute) && (attribute == "msid" ==> FieldsOk(value)) && line == SsrcLine(ssrc, attribute, value))
  }

  lemma {:induction false} GroupLinesPrinted(groups: seq<SsrcGroup>)
    ensures forall line :: line in GroupLines(groups) ==> Printed(line)
  {
    if groups != [] {
      GroupLinesPrinted(groups[..|groups| - 1]);
      assert Printed(GroupLine(groups[|groups| - 1]));
    }
  }

  lemma {:induction false} SsrcLinesPrinted(t: StreamParams, ssrcs: seq<U32>)
    requires ssrcs != [] ==> FieldsOk(t.streamId + " " + t.id)
    ensures forall line :: line in SsrcLines(t, ssrcs) ==> Printed(line)
  {
    if ssrcs != [] {
      var n := |ssrcs| - 1;
      SsrcLinesPrinted(t, ssrcs[..n]);
      assert Printed(SsrcLine(ssrcs[n], "cname", t.cname));
      assert Printed(SsrcLine(ssrcs[n], "msid", t.streamId + " " + t.id));
      assert Printed(SsrcLine(ssrcs[n], "mslabel", t.streamId));
      assert Printed(SsrcLine(ssrcs[n], "lable", t.id));
    }
  }

  lemma {:induction false} LinesPrinted(tracks: seq<StreamParams>)
    requires forall t :: t in tracks && t.ssrcs != [] ==> FieldsOk(t.streamId + " " + t.id)
    ensures forall line :: line in Lines(tracks) ==> Printed(line)
  {
    if tracks != [] {
      var t := tracks[|tracks| - 1];
      assert t in tracks;
      LinesPrinted(tracks[..|tracks| - 1]);
      GroupLinesPrinted(t.ssrcGroups);
      SsrcLinesPrinted(t, t.ssrcs);
    }
  }

  lemma {:induction false} PrintedLinesKeep(s: State, lines: seq<string>)
    requires (forall line :: line in lines ==> Printed(line)) && ParseLines(s, lines).Some?
    requires InfosOk(s.video) && GroupsOk(s.groups)
    ensures var r := ParseLines(s, lines).value; InfosOk(r.video) && GroupsOk(r.groups)
  {
    if lines != [] {
      var n := |lines| - 1;
      PrintedLinesKeep(s, lines[..n]);
      var before, line := ParseLines(s, lines[..n]).value, lines[n];
      assert line in lines;
      if g: SsrcGroup :| line == GroupLine(g) {
        GroupLineFilters(before, g);
      } else {
        var ssrc: U32, attribute, value :|
          IsAttribute(attribute) && (attribute == "msid" ==> FieldsOk(value)) && line == SsrcLine(ssrc, attribute, value);
        SsrcLineFilters(before, ssrc, attribute, value);
      }
    }
  }

  // ---------- All tracks ----------

  predicate TracksSurvive(tracks: seq<StreamParams>) {
    forall t :: t in tracks ==> TrackSurvives(t)
  }

  lemma {:induction false} CreatedOk(infos: seq<SsrcInfo>)
    requires InfosOk(infos)
    ensures TracksSurvive(CreateTracks(infos, []))
  {
    if infos != [] {
      var n := |infos| - 1;
      CreatedOk(infos[..n]);
      assert infos[n] in infos;
      AddedOk(CreateTracks(infos[..n], []), infos[n]);
    }
  }

  lemma AddedOk(tracks: seq<StreamParams>, info: SsrcInfo)
    requires TracksSurvive(tracks) && InfoOk(info)
    ensures TracksSurvive(AddToTrack(tracks, info))
  {
    var r, k := AddToTrack(tracks, info), FindTrack(tracks, info.trackId);
    forall i | 0 <= i < |r| ensures TrackSurvives(r[i]) {
      if k < |tracks| {
        assert tracks[k] in tracks;
      }
      if i != k {
        assert r[i] == tracks[i] && tracks[i] in tracks;
      }
    }
  }

  lemma {:induction false} AttachedOk(tracks: seq<StreamParams>, groups: seq<SsrcGroup>)
    requires TracksSurvive(tracks) && GroupsOk(groups)
    ensures TracksSurvive(AttachAll(tracks, groups))
  {
    if groups != [] {
      var n := |groups| - 1;
      AttachedOk(tracks, groups[..n]);
      var before, r := AttachAll(tracks, groups[..n]), AttachAll(tracks, groups);
      assert groups[n] in groups;
      forall i | 0 <= i < |r| ensures TrackSurvives(r[i]) {
        assert before[i] in before && r[i] == AttachTo(groups[n], before[i]);
      }
    }
  }

  // No line made reading fail.
  lemma {:induction false} NoneFails(s: State, lines: seq<string>)
    requires ParseLines(s, lines).Some?
    ensures forall line :: line in lines ==> NextMedia("", line).Some?
  {
    if lines != [] {
      var n := |lines| - 1;
      NoneFails(s, lines[..n]);
      var before := ParseLines(s, lines[..n]).value;
      assert ParseLine(before, lines[n]).Some?;
      assert NextMedia(before.media, lines[n]).Some? && NextMedia("", lines[n]).Some?;
      assert forall line {:trigger line in lines} :: line in lines ==> line in lines[..n] || line == lines[n];
    }
  }

  lemma {:induction false} SsrcLinesHave(t: StreamParams, ssrcs: seq<U32>)
    requires ssrcs != []
    ensures SsrcLine(ssrcs[0], "mslabel", t.streamId) in SsrcLines(t, ssrcs)
    ensures SsrcLine(ssrcs[0], "lable", t.id) in SsrcLines(t, ssrcs)
  {
    var n := |ssrcs| - 1;
    var lines := LinesOfSsrc(t, ssrcs[n]);
    if n == 0 {
      assert lines[2] in lines && lines[3] in lines;
    } else {
      SsrcLinesHave(t, ssrcs[..n]);
    }
  }

  lemma {:induction false} LinesHave(tracks: seq<StreamParams>, t: StreamParams)
    requires t in tracks && t.ssrcs != []
    ensures SsrcLine(t.ssrcs[0], "mslabel", t.streamId) in Lines(tracks)
    ensures SsrcLine(t.ssrcs[0], "lable", t.id) in Lines(tracks)
  {
    var n := |tracks| - 1;
    if t == tracks[n] {
      SsrcLinesHave(t, t.ssrcs);
    } else {
      LinesHave(tracks[..n], t);
    }
  }

  // The lines for its stream id and its id would fail if they looked like the start of a
  // section, unless there is a space in them, and then the msid is not cut in two.
  lemma MsidFieldsOk(s: State, tracks: seq<StreamParams>, t: StreamParams)
    requires ParseLines(s, Lines(tracks)).Some? && t in tracks && t.ssrcs != []
    ensures FieldsOk(t.streamId + " " + t.id)
  {
    var v := t.streamId + " " + t.id;
    SplitJoin(t.streamId, ' ', t.id);
    assert v == t.streamId + [' '] + t.id;
    if |Split(v, ' ')| <= 2 {
      OneField(t.streamId);
      OneField(t.id);
      NoneFails(s, Lines(tracks));
      LinesHave(tracks, t);
      if !MediaOk(t.streamId) {
        MediaLost("", t.ssrcs[0], "mslabel", t.streamId);
      }
      if !MediaOk(t.id) {
        MediaLost("", t.ssrcs[0], "lable", t.id);
      }
    }
  }

  lemma OneField(s: string)
    requires |Split(s, ' ')| == 1
    ensures Split(s, ' ') == [s] && Without(s, ' ')
  {
  }

  /** Whatever tracks were printed, if no line is refused: those that are read are well formed
      and survive. */
  lemma ReadSurvive(s: State, tracks: seq<StreamParams>)
    requires s.video == [] && s.groups == [] && ParseLines(s, Lines(tracks)).Some?
    ensures var read := VideoTracks(ParseLines(s, Lines(tracks)).value);
            GoodTracks(read) && forall t :: t in read ==> TrackSurvives(t)
  {
    var r := ParseLines(s, Lines(tracks)).value;
    TracksAreGood(s, Lines(tracks));
    forall t | t in tracks && t.ssrcs != [] ensures FieldsOk(t.streamId + " " + t.id) {
      MsidFieldsOk(s, tracks, t);
    }
    LinesPrinted(tracks);
    PrintedLinesKeep(s, Lines(tracks));
    CreatedOk(r.video);
    AttachedOk(CreateTracks(r.video, []), r.groups);
  }

  // ---------- Lines without a newline ----------

  predicate OneLine(s: string) {
    Without(s, '\n')
  }

  predicate InfoOneLine(info: SsrcInfo) {
    OneLine(info.cname) && OneLine(info.streamId) && OneLine(info.trackId)
  }

  predicate TrackOneLine(t: StreamParams) {
    && OneLine(t.cname) && OneLine(t.streamId) && OneLine(t.id)
    && forall g :: g in t.ssrcGroups ==> OneLine(g.semantics)
  }

  lemma {:induction false} SkipOneLine(s: string, c: char)
    requires OneLine(s)
    ensures OneLine(SkipLeading(s, c))
  {
    if s != "" && s[0] == c {
      SkipOneLine(s[1..], c);
    }
  }

  lemma AssignOneLine(infos: seq<SsrcInfo>, ssrc: U32, attribute: string, value: string)
    requires OneLine(value) && forall info :: info in infos ==> InfoOneLine(info)
    ensures var r := Assign(infos, ssrc, attribute, value);
            r.Some? ==> forall info :: info in r.value ==> InfoOneLine(info)
  {
    var all, i, fields := WithSsrc(infos, ssrc), Find(infos, ssrc), Split(value, ' ');
    SplitWithout(value, ' ', '\n');
    assert fields[0] in fields && (|fields| == 2 ==> fields[1] in fields);
    assert forall info :: info in all ==> InfoOneLine(info);
    assert all[i] in all;
  }

  lemma GetAttributeOneLine(s: string)
    requires OneLine(s)
    ensures OneLine(GetAttribute(s))
  {
    var tokens := Tokenize(s, ':');
    SplitWithout(s, ':', '\n');
    NonEmptyIn(Split(s, ':'));
    assert |tokens| == 2 ==> tokens[1] in tokens;
  }

  ghost predicate StateOneLine(s: State) {
    && (forall info :: info in s.video ==> InfoOneLine(info))
    && (forall g :: g in s.groups ==> OneLine(g.semantics))
  }

  lemma LineKeepsOneLine(s: State, line: string)
    requires StateOneLine(s) && OneLine(line) && ParseLine(s, line).Some?
    ensures StateOneLine(ParseLine(s, line).value)
  {
    VideoOneLine(s.video, line);
    GroupsOneLine(s.groups, line);
  }

  lemma VideoOneLine(infos: seq<SsrcInfo>, line: string)
    requires OneLine(line) && forall info :: info in infos ==> InfoOneLine(info)
    ensures var r := ParseSsrcInfo(infos, line); r.Some? ==> forall info :: info in r.value ==> InfoOneLine(info)
  {
    if |line| >= 2 {
      var cut := TokenizeFirst(line[2..], ' ');
      if cut.Some? && |cut.value.0| >= 5 {
        SkipOneLine(line[2..][IndexOf(line[2..], ' ') + 1..], ' ');
        var ssrc, attribute := FromDecimal(cut.value.0[5..]), TokenizeFirst(cut.value.1, ':');
        if ssrc.Some? && attribute.Some? {
          SkipOneLine(cut.value.1[IndexOf(cut.value.1, ':') + 1..], ':');
          AssignOneLine(infos, ssrc.value, attribute.value.0, attribute.value.1);
        }
      }
    }
  }

  lemma GroupsOneLine(groups: seq<SsrcGroup>, line: string)
    requires OneLine(line) && forall g :: g in groups ==> OneLine(g.semantics)
    ensures var r := ParseSsrcGroupInfo(groups, line); r.Some? ==> forall g :: g in r.value ==> OneLine(g.semantics)
  {
    if |line| >= 2 {
      var fields := Split(line[2..], ' ');
      SplitWithout(line[2..], ' ', '\n');
      assert fields[0] in fields;
      GetAttributeOneLine(fields[0]);
    }
  }

  lemma {:induction false} LinesKeepOneLine(s: State, lines: seq<string>)
    requires StateOneLine(s) && (forall line :: line in lines ==> OneLine(line)) && ParseLines(s, lines).Some?
    ensures StateOneLine(ParseLines(s, lines).value)
  {
    if lines != [] {
      var n := |lines| - 1;
      LinesKeepOneLine(s, lines[..n]);
      assert lines[n] in lines;
      LineKeepsOneLine(ParseLines(s, lines[..n]).value, lines[n]);
    }
  }

  lemma {:induction false} CreatedOneLine(infos: seq<SsrcInfo>)
    requires forall info :: info in infos ==> InfoOneLine(info)
    ensures forall t :: t in CreateTracks(infos, []) ==> TrackOneLine(t)
  {
    if infos != [] {
      var n := |infos| - 1;
      CreatedOneLine(infos[..n]);
      assert infos[n] in infos;
      var tracks, r := CreateTracks(infos[..n], []), CreateTracks(infos, []);
      var k := FindTrack(tracks, infos[n].trackId);
      forall i | 0 <= i < |r| ensures TrackOneLine(r[i]) {
        if k < |tracks| {
          assert tracks[k] in tracks;
        }
        if i != k {
          assert r[i] == tracks[i] && tracks[i] in tracks;
        }
      }
    }
  }

  lemma {:induction false} AttachedOneLine(tracks: seq<StreamParams>, groups: seq<SsrcGroup>)
    requires (forall t :: t in tracks ==> TrackOneLine(t)) && forall g :: g in groups ==> OneLine(g.semantics)
    ensures forall t :: t in AttachAll(tracks, groups) ==> TrackOneLine(t)
  {
    if groups != [] {
      var n := |groups| - 1;
      AttachedOneLine(tracks, groups[..n]);
      var before, r := AttachAll(tracks, groups[..n]), AttachAll(tracks, groups);
      assert groups[n] in groups;
      forall i | 0 <= i < |r| ensures TrackOneLine(r[i]) {
        assert before[i] in before && r[i] == AttachTo(groups[n], before[i]);
      }
    }
  }

  /** No string of a track that is read has a newline in it, whatever the text. */
  lemma ReadOneLine(text: string)
    requires RemoteTracks(text).Some?
    ensures forall t :: t in RemoteTracks(text).value ==> TrackOneLine(t)
  {
    var start, fields := State("", [], [], []), Tokenize(text, '\n');
    NonEmptyIn(Split(text, '\n'));
    assert forall line :: line in Fields(text) ==> OneLine(line) by {
      forall i | 0 <= i < |Fields(text)| ensures OneLine(Fields(text)[i]) {
        assert fields[i] in fields;
      }
    }
    var r := ParseLines(start, Fields(text)).value;
    LinesKeepOneLine(start, Fields(text));
    CreatedOneLine(r.video);
    AttachedOneLine(CreateTracks(r.video, []), r.groups);
  }
}
