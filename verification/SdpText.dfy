/** The string functions that the SDP code works with: searching, cutting at a delimiter and
    numbers in decimal. */
module SdpText {
  import opened Basics

  // ---------- Searching ----------

  predicate At(s: string, i: int, m: string) {
    0 <= i && i + |m| <= |s| && s[i..i + |m|] == m
  }

  /** std::string::find succeeds. */
  predicate Contains(s: string, m: string) {
    exists i :: 0 <= i <= |s| && At(s, i, m)
  }

  // A marker such as "a=ssrc:", of which the second character is '='.
  predicate IsMarker(m: string) {
    |m| >= 2 && m[1] == '=' && m[0] != ':' && m[0] != ' '
  }

  predicate Without(s: string, c: char) {
    forall i :: 0 <= i < |s| ==> s[i] != c
  }

  /** If s has its only '=' after the first character, a marker in a text that begins with s and
      goes on after a ':' is at the front or in the rest. */
  lemma MarkerInFrontOrRest(s: string, rest: string, m: string)
    requires IsMarker(m) && |s| >= 2 && s[|s| - 1] == ':' && (forall i :: 0 <= i < |s| && i != 1 ==> s[i] != '=')
    ensures Contains(s + rest, m) <==> m <= s + rest || Contains(rest, m)
  {
    var t := s + rest;
    if m <= t {
      assert At(t, 0, m);
    }
    if j :| 0 <= j <= |rest| && At(rest, j, m) {
      assert t[j + |s|..j + |s| + |m|] == rest[j..j + |m|];
      assert At(t, j + |s|, m);
    }
    if i :| 0 <= i <= |t| && At(t, i, m) {
      assert t[i] == t[i..i + |m|][0] && t[i + 1] == t[i..i + |m|][1];
      if i >= |s| {
        assert rest[i - |s|..i - |s| + |m|] == t[i..i + |m|];
        assert At(rest, i - |s|, m);
      } else {
        assert t[i] == s[i] && (i + 1 < |s| ==> t[i + 1] == s[i + 1]);
      }
    }
  }

  lemma MarkerInRest(s: string, rest: string, m: string, k: nat)
    requires IsMarker(m) && |s| >= 2 && s[|s| - 1] == ':' && (forall i :: 0 <= i < |s| && i != 1 ==> s[i] != '=')
    requires k < |s| && k < |m| && s[k] != m[k]
    ensures Contains(s + rest, m) <==> Contains(rest, m)
  {
    MarkerInFrontOrRest(s, rest, m);
    assert (s + rest)[k] == s[k];
  }

  // ---------- Cutting ----------

  /** Where c is first in s. */
  function IndexOf(s: string, c: char): (k: nat)
    ensures k <= |s| && (k < |s| ==> s[k] == c)
    ensures forall i :: 0 <= i < k ==> s[i] != c
  {
    if s == "" || s[0] == c then 0 else 1 + IndexOf(s[1..], c)
  }

  /** rtc::split. */
  function Split(s: string, c: char): (fields: seq<string>)
    ensures |fields| >= 1
    ensures forall f :: f in fields ==> Without(f, c)
    decreases |s|
  {
    var k := IndexOf(s, c);
    if k == |s| then
      assert s[..k] == s;
      [s]
    else [s[..k]] + Split(s[k + 1..], c)
  }

  function NonEmpty(fields: seq<string>): seq<string> {
    if fields == [] then [] else (if fields[0] == "" then [] else [fields[0]]) + NonEmpty(fields[1..])
  }

  /** rtc::tokenize: like split, without the empty fields. */
  function Tokenize(s: string, c: char): seq<string> {
    NonEmpty(Split(s, c))
  }

  function SkipLeading(s: string, c: char): (r: string)
    ensures |r| <= |s| && (r != "" ==> r[0] != c)
    ensures s != "" && s[0] != c ==> r == s
  {
    if s != "" && s[0] == c then SkipLeading(s[1..], c) else s
  }

  /** rtc::tokenize_first. */
  function TokenizeFirst(s: string, c: char): Option<(string, string)> {
    var k := IndexOf(s, c);
    if k == |s| then None else Some((s[..k], SkipLeading(s[k + 1..], c)))
  }

  lemma IndexOfIs(a: string, c: char, b: string)
    requires Without(a, c)
    ensures IndexOf(a + [c] + b, c) == |a|
  {
    var s := a + [c] + b;
    assert s[|a|] == c && forall i :: 0 <= i < |a| ==> s[i] == a[i];
  }

  lemma IndexOfNone(a: string, c: char)
    requires Without(a, c)
    ensures IndexOf(a, c) == |a|
  {
  }

  lemma SplitCons(a: string, c: char, b: string)
    requires Without(a, c)
    ensures Split(a + [c] + b, c) == [a] + Split(b, c)
  {
    IndexOfIs(a, c, b);
    var s := a + [c] + b;
    assert s[..|a|] == a && s[|a| + 1..] == b;
  }

  lemma SplitNone(a: string, c: char)
    requires Without(a, c)
    ensures Split(a, c) == [a]
  {
    IndexOfNone(a, c);
  }

  lemma TokenizeFirstIs(a: string, c: char, b: string)
    requires Without(a, c)
    ensures TokenizeFirst(a + [c] + b, c) == Some((a, SkipLeading(b, c)))
  {
    IndexOfIs(a, c, b);
    var s := a + [c] + b;
    assert s[..|a|] == a && s[|a| + 1..] == b;
  }

  // ---------- Searching the parts ----------

  lemma AtPart(t: string, k: nat, n: nat, i: int, m: string)
    requires k <= n <= |t| && k <= i && i + |m| <= n
    ensures At(t, i, m) <==> At(t[k..n], i - k, m)
  {
    var u, j := t[k..n], i - k;
    var v, w := u[j..j + |m|], t[i..i + |m|];
    forall q | 0 <= q < |m| ensures v[q] == w[q] {
      assert u[j + q] == t[i + q];
    }
    assert v == w;
  }

  lemma AtMisses(t: string, i: int, m: string, n: nat)
    requires At(t, i, m) && n < |t| && Without(m, t[n])
    ensures i + |m| <= n || n < i
  {
    assert forall k :: 0 <= k < |m| ==> t[i..i + |m|][k] == t[i + k] == m[k];
  }

  /** What has no delimiter in it lies before or after one. */
  lemma ContainsEither(a: string, c: char, b: string, m: string)
    requires m != "" && Without(m, c)
    ensures Contains(a + [c] + b, m) <==> Contains(a, m) || Contains(b, m)
  {
    var t := a + [c] + b;
    assert t[0..|a|] == a && t[|a|] == c && t[|a| + 1..|t|] == b;
    if i :| 0 <= i <= |t| && At(t, i, m) {
      AtMisses(t, i, m, |a|);
      if i < |a| {
        AtPart(t, 0, |a|, i, m);
      } else {
        AtPart(t, |a| + 1, |t|, i, m);
      }
    }
    if i :| 0 <= i <= |a| && At(a, i, m) {
      AtPart(t, 0, |a|, i, m);
    }
    if i :| 0 <= i <= |b| && At(b, i, m) {
      AtPart(t, |a| + 1, |t|, |a| + 1 + i, m);
    }
  }

  /** It is in the text exactly if it is in one of the fields. */
  lemma {:induction false} InSomeField(s: string, c: char, m: string)
    requires m != "" && Without(m, c)
    ensures Contains(s, m) <==> exists f :: f in Split(s, c) && Contains(f, m)
    decreases |s|
  {
    var k := IndexOf(s, c);
    if k == |s| {
      assert Split(s, c) == [s];
      assert s in Split(s, c);
    } else {
      var a, b := s[..k], s[k + 1..];
      assert s == a + [c] + b && Split(s, c) == [a] + Split(b, c);
      ContainsEither(a, c, b, m);
      InSomeField(b, c, m);
      assert a in Split(s, c);
      assert forall f :: f in Split(b, c) ==> f in Split(s, c);
    }
  }

  // The text has the characters of what it contains.
  lemma HasChar(s: string, m: string, k: nat)
    requires Contains(s, m) && k < |m|
    ensures !Without(s, m[k])
  {
    var i :| 0 <= i <= |s| && At(s, i, m);
    assert s[i + k] == s[i..i + |m|][k];
  }

  // The fields that tokenize keeps.
  lemma {:induction false} NonEmptyIn(fields: seq<string>)
    ensures forall f :: f in NonEmpty(fields) <==> f in fields && f != ""
  {
    if fields != [] {
      NonEmptyIn(fields[1..]);
      assert forall f {:trigger f in fields} :: f in fields <==> f == fields[0] || f in fields[1..];
    }
  }

  // ---------- Decimal numbers ----------

  predicate IsDigit(c: char) {
    '0' <= c <= '9'
  }

  function Digit(d: nat): (c: char)
    requires d < 10
    ensures IsDigit(c) && c as int - '0' as int == d
  {
    ('0' as int + d) as char
  }

  function ToDecimal(n: nat): (s: string)
    ensures s != "" && (forall i :: 0 <= i < |s| ==> IsDigit(s[i]))
  {
    if n < 10 then [Digit(n)] else ToDecimal(n / 10) + [Digit(n % 10)]
  }

  predicate AllDigits(s: string) {
    forall i :: 0 <= i < |s| ==> IsDigit(s[i])
  }

  function ValueOf(s: string): nat
    requires AllDigits(s)
  {
    if s == "" then 0 else 10 * ValueOf(s[..|s| - 1]) + (s[|s| - 1] as int - '0' as int)
  }

  /** rtc::FromString for a 32-bit number; a zero may have a minus sign. */
  function FromDecimal(s: string): Option<U32> {
    var digits := if s != "" && s[0] == '-' then s[1..] else s;
    if digits == "" || !AllDigits(digits) || ValueOf(digits) >= 0x1_0000_0000 then None
    else if digits != s && ValueOf(digits) != 0 then None
    else Some(ValueOf(digits))
  }

  lemma {:induction false} ValueOfDecimal(n: nat)
    ensures ValueOf(ToDecimal(n)) == n
  {
    var s := ToDecimal(n);
    if n < 10 {
      assert s[..0] == "";
    } else {
      assert s[..|s| - 1] == ToDecimal(n / 10);
      ValueOfDecimal(n / 10);
    }
  }

  /** A number printed is read back. */
  lemma DecimalRoundTrip(n: U32)
    ensures FromDecimal(ToDecimal(n)) == Some(n)
  {
    ValueOfDecimal(n);
    assert IsDigit(ToDecimal(n)[0]);
  }
}
