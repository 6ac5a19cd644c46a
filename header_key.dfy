/** Canonical spelling of HTTP header names, as `Headers.upperCaseFirst` computes it:
    the key is split on '-', each segment that starts with a letter gets that letter
    upper-cased and the rest lower-cased, any other segment is lower-cased whole, and the
    segments are joined with '-' again ("x-custom-header" becomes "X-Custom-Header").
    Character classes are those of ASCII; every other character counts as uncased. */
module HeaderKey {
  import opened Wrappers

  predicate IsLower(c: char) { 'a' <= c <= 'z' }
  predicate IsUpper(c: char) { 'A' <= c <= 'Z' }
  /** `Character.isLowerCase(c) || Character.isUpperCase(c)` */
  predicate IsCased(c: char) { IsLower(c) || IsUpper(c) }

  function ToUpper(c: char): (r: char)
    ensures IsCased(c) ==> IsUpper(r)
    ensures !IsCased(c) ==> r == c
  {
    if IsLower(c) then (c as int - 'a' as int + 'A' as int) as char else c
  }

  function ToLower(c: char): (r: char)
    ensures IsCased(c) ==> IsLower(r)
    ensures !IsCased(c) ==> r == c
  {
    if IsUpper(c) then (c as int - 'A' as int + 'a' as int) as char else c
  }

  /** `String.toLowerCase` */
  function LowerStr(s: string): (r: string)
    ensures |r| == |s|
    ensures forall i :: 0 <= i < |s| ==> r[i] == ToLower(s[i])
  {
    if s == [] then [] else [ToLower(s[0])] + LowerStr(s[1..])
  }

  /** The pieces of `s` between its '-' characters: one more piece than there are dashes. */
  function SplitRaw(s: string): (r: seq<string>)
    ensures |r| >= 1
    decreases |s|
  {
    if s == [] then [""]
    else
      var rest := SplitRaw(s[1..]);
      if s[0] == '-' then [""] + rest else [[s[0]] + rest[0]] + rest[1..]
  }

  function DropTrailingEmpty(parts: seq<string>): (r: seq<string>)
    ensures |r| <= |parts| && r == parts[..|r|]
    ensures r != [] ==> r[|r| - 1] != ""
    ensures forall i :: |r| <= i < |parts| ==> parts[i] == ""
  {
    if parts != [] && parts[|parts| - 1] == "" then DropTrailingEmpty(parts[..|parts| - 1]) else parts
  }

  /** `s.split("-")`: a string without a dash is returned whole (even when empty); otherwise
      the pieces between dashes, with trailing empty pieces removed. */
  function JavaSplit(s: string): seq<string>
  {
    if '-' !in s then [s] else DropTrailingEmpty(SplitRaw(s))
  }

  function Join(parts: seq<string>): string
  {
    if parts == [] then ""
    else if |parts| == 1 then parts[0]
    else parts[0] + "-" + Join(parts[1..])
  }

  predicate NoDash(s: string) { '-' !in s }

  /** A segment in canonical spelling: its first character is no lower-case letter and no
      later character is an upper-case letter. */
  predicate IsCanonSegment(r: string)
  {
    r != "" && !IsLower(r[0]) && forall i :: 1 <= i < |r| ==> !IsUpper(r[i])
  }

  /** The canonical form of one non-empty segment: the canonical segment that equals `seg`
      up to letter case. */
  function CanonSegment(seg: string): (r: string)
    requires seg != ""
    ensures IsCanonSegment(r) && LowerStr(r) == LowerStr(seg)
    ensures |r| == |seg| && forall i :: 0 <= i < |r| ==> (r[i] == '-' <==> seg[i] == '-')
  {
    if IsCased(seg[0]) then [ToUpper(seg[0])] + LowerStr(seg[1..]) else LowerStr(seg)
  }

  /** The canonical forms of all segments, or None when one of them is empty
      (where `charAt(0)` throws). */
  function CanonSegments(parts: seq<string>): Option<seq<string>>
  {
    if parts == [] then Some([])
    else if parts[0] == "" then None
    else match CanonSegments(parts[1..])
      case None => None
      case Some(rest) => Some([CanonSegment(parts[0])] + rest)
  }

  /** `upperCaseFirst(key)`; None stands for the StringIndexOutOfBoundsException. */
  function CanonKey(key: string): Option<string>
  {
    match CanonSegments(JavaSplit(key))
    case None => None
    case Some(segs) => Some(Join(segs))
  }

  /** The StringBuilder loop of `upperCaseFirst`, segment by segment. */
  method UpperCaseFirst(headerKey: string) returns (r: Option<string>)
    ensures r == CanonKey(headerKey)
  {
    var arr := JavaSplit(headerKey);
    var sb := "";
    for i := 0 to |arr|
      invariant CanonSegments(arr[..i]).Some?
      invariant sb == Join(CanonSegments(arr[..i]).value)
      invariant |sb| > 0 <==> i > 0
    {
      if arr[i] == "" {
        CanonSegmentsNoneAt(arr, i);
        return None;
      }
      LoopStep(arr, i, sb);
      sb := AppendSegment(sb, arr[i]);
    }
    assert arr[..|arr|] == arr;
    r := Some(sb);
  }

  /** The body of the loop in `upperCaseFirst` for one non-empty segment: a dash when
      something is already there, then the segment's first character upper-cased and the
      rest lower-cased when that character is a letter, or the whole segment lower-cased. */
  method AppendSegment(sb: string, s: string) returns (sb': string)
    requires s != ""
    ensures sb' == (if |sb| > 0 then sb + "-" else sb) + CanonSegment(s)
  {
    sb' := sb;
    if |sb'| > 0 {
      sb' := sb' + "-";
    }
    ghost var done := sb';
    var c := s[0];
    if IsCased(c) {
      sb' := sb' + [ToUpper(c)];
      sb' := sb' + LowerStr(s[1..]);
      assert sb' == done + ([ToUpper(c)] + LowerStr(s[1..]));
    } else {
      sb' := sb' + LowerStr(s);
    }
  }

  /** One round of the loop in `UpperCaseFirst`: appending the next segment's canonical
      form (after a dash when something is already there) extends the join. */
  lemma LoopStep(arr: seq<string>, i: nat, sb: string)
    requires i < |arr| && arr[i] != ""
    requires CanonSegments(arr[..i]).Some? && sb == Join(CanonSegments(arr[..i]).value)
    requires |sb| > 0 <==> i > 0
    ensures CanonSegments(arr[..i + 1]).Some?
    ensures Join(CanonSegments(arr[..i + 1]).value) == (if |sb| > 0 then sb + "-" else sb) + CanonSegment(arr[i])
  {
    CanonSegmentsSnoc(arr[..i], arr[i]);
    assert arr[..i + 1] == arr[..i] + [arr[i]];
    JoinSnoc(CanonSegments(arr[..i]).value, CanonSegment(arr[i]));
  }

  lemma {:induction false} CanonSegmentsSnoc(parts: seq<string>, p: string)
    requires CanonSegments(parts).Some?
    ensures CanonSegments(parts + [p]) ==
      if p == "" then None else Some(CanonSegments(parts).value + [CanonSegment(p)])
  {
    if parts == [] {
      assert parts + [p] == [p] && [p][1..] == [];
      assert CanonSegments([p][1..]) == Some([]);
      if p != "" {
        var one := [p];
        assert one[0] == p && one[1..] == [];
        assert [CanonSegment(p)] + [] == [CanonSegment(p)];
        assert CanonSegments(one) == Some([CanonSegment(p)]);
        assert CanonSegments(parts).value + [CanonSegment(p)] == [CanonSegment(p)];
      }
    } else {
      var q := parts + [p];
      assert q[0] == parts[0] && q[1..] == parts[1..] + [p];
      CanonSegmentsSnoc(parts[1..], p);
      var rest := CanonSegments(parts[1..]).value;
      if p != "" {
        assert CanonSegments(q) == Some([CanonSegment(parts[0])] + (rest + [CanonSegment(p)]));
        assert [CanonSegment(parts[0])] + (rest + [CanonSegment(p)]) == ([CanonSegment(parts[0])] + rest) + [CanonSegment(p)];
      }
    }
  }

  lemma {:induction false} CanonSegmentsNoneAt(parts: seq<string>, i: nat)
    requires i < |parts| && parts[i] == ""
    ensures CanonSegments(parts) == None
  {
    if i > 0 {
      CanonSegmentsNoneAt(parts[1..], i - 1);
    }
  }

  lemma {:induction false} JoinSnoc(parts: seq<string>, p: string)
    ensures Join(parts + [p]) == if parts == [] then p else Join(parts) + "-" + p
  {
    if |parts| > 1 {
      assert (parts + [p])[1..] == parts[1..] + [p];
      JoinSnoc(parts[1..], p);
    }
  }

  // ---------------------------------------------------------------------------
  // Splitting and joining

  lemma {:induction false} SplitRawNoDash(s: string)
    requires NoDash(s)
    ensures SplitRaw(s) == [s]
  {
    if s != [] {
      SplitRawNoDash(s[1..]);
      assert [s[0]] + s[1..] == s;
    }
  }

  lemma {:induction false} SplitRawAtDash(a: string, b: string)
    ensures SplitRaw(a + "-" + b) == SplitRaw(a) + SplitRaw(b)
    decreases |a|
  {
    if a == [] {
      assert a + "-" + b == "-" + b && ("-" + b)[1..] == b;
    } else {
      var k := a + "-" + b;
      assert k[0] == a[0] && k[1..] == a[1..] + "-" + b;
      SplitRawAtDash(a[1..], b);
    }
  }

  /** Splitting a join of dash-free pieces gives the pieces back. */
  lemma {:induction false} SplitRawJoin(parts: seq<string>)
    requires parts != []
    requires forall i :: 0 <= i < |parts| ==> NoDash(parts[i])
    ensures SplitRaw(Join(parts)) == parts
  {
    if |parts| == 1 {
      SplitRawNoDash(parts[0]);
    } else {
      SplitRawNoDash(parts[0]);
      SplitRawJoin(parts[1..]);
      SplitRawAtDash(parts[0], Join(parts[1..]));
      assert [parts[0]] + parts[1..] == parts;
    }
  }

  lemma {:induction false} JoinNoDash(parts: seq<string>)
    requires forall i :: 0 <= i < |parts| ==> NoDash(parts[i])
    ensures NoDash(Join(parts)) <==> |parts| <= 1
  {
    if |parts| > 1 {
      var j := Join(parts);
      assert j[|parts[0]|] == '-';
    }
  }

  // ---------------------------------------------------------------------------
  // Letter case

  /** Two canonical segments that agree up to letter case are equal: the canonical
      spelling of a segment is unique. */
  lemma CanonSegmentUnique(a: string, b: string)
    requires IsCanonSegment(a) && IsCanonSegment(b)
    requires LowerStr(a) == LowerStr(b)
    ensures a == b
  {
    assert |a| == |LowerStr(a)| == |b|;
    forall i | 0 <= i < |a|
      ensures a[i] == b[i]
    {
      assert LowerStr(a)[i] == LowerStr(b)[i];
    }
  }

  lemma CanonSegmentIdempotent(seg: string)
    requires seg != ""
    ensures CanonSegment(CanonSegment(seg)) == CanonSegment(seg)
  {
    var r := CanonSegment(seg);
    CanonSegmentUnique(CanonSegment(r), r);
  }

  lemma CanonSegmentLower(seg: string)
    requires seg != ""
    ensures LowerStr(seg) != "" && CanonSegment(LowerStr(seg)) == CanonSegment(seg)
  {
    LowerLower(seg);
    CanonSegmentUnique(CanonSegment(LowerStr(seg)), CanonSegment(seg));
  }

  lemma LowerLower(s: string)
    ensures LowerStr(LowerStr(s)) == LowerStr(s)
  {
    assert forall i :: 0 <= i < |s| ==> LowerStr(LowerStr(s))[i] == LowerStr(s)[i];
  }

  // ---------------------------------------------------------------------------
  // Properties of CanonKey

  lemma {:induction false} SplitRawPiecesNoDash(s: string)
    ensures forall i :: 0 <= i < |SplitRaw(s)| ==> NoDash(SplitRaw(s)[i])
  {
    if s != [] {
      SplitRawPiecesNoDash(s[1..]);
      var rest := SplitRaw(s[1..]);
      if s[0] != '-' {
        assert NoDash(rest[0]);
        assert NoDash([s[0]] + rest[0]);
      }
    }
  }

  lemma JavaSplitPiecesNoDash(s: string)
    ensures forall i :: 0 <= i < |JavaSplit(s)| ==> NoDash(JavaSplit(s)[i])
  {
    if '-' in s {
      SplitRawPiecesNoDash(s);
    }
  }

  lemma {:induction false} CanonSegmentsShape(parts: seq<string>)
    requires CanonSegments(parts).Some?
    ensures |CanonSegments(parts).value| == |parts|
    ensures forall i :: 0 <= i < |parts| ==>
      parts[i] != "" && CanonSegments(parts).value[i] == CanonSegment(parts[i])
  {
    if parts != [] {
      CanonSegmentsShape(parts[1..]);
    }
  }

  lemma {:induction false} CanonSegmentsFixed(segs: seq<string>)
    requires forall i :: 0 <= i < |segs| ==> segs[i] != "" && CanonSegment(segs[i]) == segs[i]
    ensures CanonSegments(segs) == Some(segs)
  {
    if segs != [] {
      CanonSegmentsFixed(segs[1..]);
      assert [segs[0]] + segs[1..] == segs;
    }
  }

  /** Splitting a join of non-empty dash-free pieces gives the pieces back. */
  lemma JavaSplitJoin(segs: seq<string>)
    requires segs != []
    requires forall i :: 0 <= i < |segs| ==> segs[i] != "" && NoDash(segs[i])
    ensures JavaSplit(Join(segs)) == segs
  {
    var c := Join(segs);
    JoinNoDash(segs);
    if |segs| == 1 {
      assert JavaSplit(c) == [segs[0]];
    } else {
      SplitRawJoin(segs);
      assert JavaSplit(c) == DropTrailingEmpty(segs);
    }
  }

  /** Canonicalising an already canonical key changes nothing. The one exception is the
      empty result, which only keys made of dashes alone produce ("-".split("-") is empty)
      and which does not canonicalise again, since `"".charAt(0)` throws. */
  lemma CanonKeyIdempotent(key: string)
    requires CanonKey(key).Some? && CanonKey(key).value != ""
    ensures CanonKey(CanonKey(key).value) == CanonKey(key)
  {
    var parts := JavaSplit(key);
    var segs := CanonSegments(parts).value;
    var c := Join(segs);
    CanonSegmentsShape(parts);
    JavaSplitPiecesNoDash(key);
    assert segs != [];
    forall i | 0 <= i < |segs|
      ensures segs[i] != "" && NoDash(segs[i]) && CanonSegment(segs[i]) == segs[i]
    {
      CanonSegmentIdempotent(parts[i]);
      assert NoDash(parts[i]);
    }
    JavaSplitJoin(segs);
    CanonSegmentsFixed(segs);
  }

  function MapLower(parts: seq<string>): (r: seq<string>)
    ensures |r| == |parts|
    ensures forall i :: 0 <= i < |parts| ==> r[i] == LowerStr(parts[i])
  {
    if parts == [] then [] else [LowerStr(parts[0])] + MapLower(parts[1..])
  }

  lemma LowerConcat(a: string, b: string)
    ensures LowerStr(a + b) == LowerStr(a) + LowerStr(b)
  {
    assert forall i :: 0 <= i < |a + b| ==> LowerStr(a + b)[i] == (LowerStr(a) + LowerStr(b))[i];
  }

  lemma {:induction false} SplitRawLower(s: string)
    ensures SplitRaw(LowerStr(s)) == MapLower(SplitRaw(s))
  {
    if s != [] {
      var l := LowerStr(s);
      assert l[0] == ToLower(s[0]) && l[1..] == LowerStr(s[1..]);
      SplitRawLower(s[1..]);
      var rest := SplitRaw(s[1..]);
      if s[0] != '-' {
        LowerConcat([s[0]], rest[0]);
        assert LowerStr([s[0]]) == [ToLower(s[0])];
      }
    }
  }

  lemma {:induction false} DropTrailingLower(parts: seq<string>)
    ensures DropTrailingEmpty(MapLower(parts)) == MapLower(DropTrailingEmpty(parts))
  {
    if parts != [] {
      var ini := parts[..|parts| - 1];
      assert MapLower(parts)[..|parts| - 1] == MapLower(ini);
      DropTrailingLower(ini);
    }
  }

  lemma {:induction false} CanonSegmentsLower(parts: seq<string>)
    ensures CanonSegments(MapLower(parts)) == CanonSegments(parts)
  {
    if parts != [] {
      assert MapLower(parts)[1..] == MapLower(parts[1..]);
      CanonSegmentsLower(parts[1..]);
      if parts[0] != "" {
        CanonSegmentLower(parts[0]);
      }
    }
  }

  lemma DashInLower(key: string)
    ensures '-' in LowerStr(key) <==> '-' in key
  {
    var l := LowerStr(key);
    if '-' in l {
      var i :| 0 <= i < |l| && l[i] == '-';
      assert key[i] == '-';
    }
    if '-' in key {
      var i :| 0 <= i < |key| && key[i] == '-';
      assert l[i] == '-';
    }
  }

  lemma JavaSplitLower(key: string)
    ensures JavaSplit(LowerStr(key)) == MapLower(JavaSplit(key))
  {
    DashInLower(key);
    if '-' in key {
      SplitRawLower(key);
      DropTrailingLower(SplitRaw(key));
    } else {
      assert MapLower([key]) == [LowerStr(key)];
    }
  }

  /** Lower-casing a key does not change its canonical form. */
  lemma CanonKeyLower(key: string)
    ensures CanonKey(LowerStr(key)) == CanonKey(key)
  {
    JavaSplitLower(key);
    CanonSegmentsLower(JavaSplit(key));
  }

  /** Keys that differ only in letter case canonicalise alike, so they address the same
      header entry. */
  lemma CanonKeyCaseInsensitive(a: string, b: string)
    requires LowerStr(a) == LowerStr(b)
    ensures CanonKey(a) == CanonKey(b)
  {
    CanonKeyLower(a);
    CanonKeyLower(b);
  }

  // ---------------------------------------------------------------------------
  // When canonicalisation throws

  /** Some dash opens an empty segment (it is the key's first character or follows another
      dash) and a character other than a dash comes later. */
  ghost predicate EmptySegmentBeforeText(k: string)
  {
    exists i, j :: 0 <= i < j < |k| && OpensEmptySegment(k, i) && k[j] != '-'
  }

  /** The dash at `i` starts an empty segment. */
  predicate OpensEmptySegment(k: string, i: nat)
    requires i < |k|
  {
    k[i] == '-' && (i == 0 || k[i - 1] == '-')
  }

  /** Two dashes in a row, not at the start, with a character other than a dash later. */
  ghost predicate DoubleDashBeforeText(k: string)
  {
    exists i: nat, j: nat :: DoubleDashAt(k, i, j)
  }

  /** The dashes at `i - 1` and `i` are followed, at `j`, by a character other than a dash. */
  predicate DoubleDashAt(k: string, i: nat, j: nat)
  {
    1 <= i < j < |k| && k[i] == '-' && k[i - 1] == '-' && k[j] != '-'
  }

  ghost predicate HasText(k: string)
  {
    exists j :: 0 <= j < |k| && k[j] != '-'
  }

  ghost predicate EmptyBeforeNonEmpty(parts: seq<string>, from: nat)
  {
    exists i, j :: from <= i < j < |parts| && parts[i] == "" && parts[j] != ""
  }

  ghost predicate HasNonEmpty(parts: seq<string>)
  {
    exists j :: 0 <= j < |parts| && parts[j] != ""
  }

  lemma {:induction false} SplitRawHasNonEmpty(t: string)
    ensures HasNonEmpty(SplitRaw(t)) <==> HasText(t)
  {
    if t != [] {
      var u := t[1..];
      var S := SplitRaw(u);
      var P := SplitRaw(t);
      SplitRawHasNonEmpty(u);
      if t[0] == '-' {
        assert P == [""] + S;
        if HasNonEmpty(P) {
          var j :| 0 <= j < |P| && P[j] != "";
          assert S[j - 1] != "";
          var j' :| 0 <= j' < |u| && u[j'] != '-';
          assert t[j' + 1] != '-';
        }
        if HasText(t) {
          var j :| 0 <= j < |t| && t[j] != '-';
          assert u[j - 1] != '-';
          var j' :| 0 <= j' < |S| && S[j'] != "";
          assert P[j' + 1] != "";
        }
      } else {
        assert P[0] == [t[0]] + S[0] && P[0] != "";
        assert t[0] != '-';
      }
    }
  }

  lemma EmptyFirst(R: seq<string>)
    ensures EmptyBeforeNonEmpty([""] + R, 0) <==> HasNonEmpty(R) || EmptyBeforeNonEmpty(R, 0)
  {
    var P := [""] + R;
    if EmptyBeforeNonEmpty(P, 0) {
      var i, j :| 0 <= i < j < |P| && P[i] == "" && P[j] != "";
      assert R[j - 1] != "";
      if i > 0 { assert R[i - 1] == ""; }
    }
    if HasNonEmpty(R) {
      var j :| 0 <= j < |R| && R[j] != "";
      assert P[0] == "" && P[j + 1] != "";
    }
    if EmptyBeforeNonEmpty(R, 0) {
      var i, j :| 0 <= i < j < |R| && R[i] == "" && R[j] != "";
      assert P[i + 1] == "" && P[j + 1] != "";
    }
  }

  lemma DashFirst(t: string)
    ensures EmptySegmentBeforeText("-" + t) <==> HasText(t) || EmptySegmentBeforeText(t)
  {
    var k := "-" + t;
    assert k[0] == '-' && forall m :: 1 <= m < |k| ==> k[m] == t[m - 1];
    if EmptySegmentBeforeText(k) {
      var i, j :| 0 <= i < j < |k| && OpensEmptySegment(k, i) && k[j] != '-';
      assert 0 <= j - 1 < |t| && t[j - 1] != '-';
      if i > 0 {
        assert 0 <= i - 1 < j - 1 < |t| && OpensEmptySegment(t, i - 1) && t[j - 1] != '-';
      }
    }
    if HasText(t) {
      var j :| 0 <= j < |t| && t[j] != '-';
      var i := 0;
      assert 0 <= i < j + 1 < |k| && OpensEmptySegment(k, i) && k[j + 1] != '-';
      assert EmptySegmentBeforeText(k);
    }
    if EmptySegmentBeforeText(t) {
      var i, j :| 0 <= i < j < |t| && OpensEmptySegment(t, i) && t[j] != '-';
      assert k[i + 1] == t[i] && k[i] == (if i == 0 then '-' else t[i - 1]) && k[j + 1] == t[j];
      assert 0 <= i + 1 < j + 1 < |k| && OpensEmptySegment(k, i + 1) && k[j + 1] != '-';
      assert EmptySegmentBeforeText(k);
    }
  }

  lemma TextFirst(x: string, R: seq<string>)
    requires x != "" && |R| >= 1
    ensures EmptyBeforeNonEmpty([x] + R[1..], 0) <==> EmptyBeforeNonEmpty(R, 1)
  {
    var P := [x] + R[1..];
    if EmptyBeforeNonEmpty(P, 0) {
      var i, j :| 0 <= i < j < |P| && P[i] == "" && P[j] != "";
      assert i >= 1 && R[i] == "" && R[j] != "";
    }
    if EmptyBeforeNonEmpty(R, 1) {
      var i, j :| 1 <= i < j < |R| && R[i] == "" && R[j] != "";
      assert P[i] == "" && P[j] != "";
    }
  }

  lemma LetterFirst(c: char, t: string)
    requires c != '-'
    ensures EmptySegmentBeforeText([c] + t) <==> DoubleDashBeforeText(t)
  {
    var k := [c] + t;
    assert k[0] == c && forall m :: 1 <= m < |k| ==> k[m] == t[m - 1];
    if EmptySegmentBeforeText(k) {
      var i, j :| 0 <= i < j < |k| && OpensEmptySegment(k, i) && k[j] != '-';
      assert i >= 2;
      assert DoubleDashAt(t, i - 1, j - 1);
    }
    if DoubleDashBeforeText(t) {
      var i: nat, j: nat :| DoubleDashAt(t, i, j);
      assert 0 <= i + 1 < j + 1 < |k| && OpensEmptySegment(k, i + 1) && k[j + 1] != '-';
    }
  }

  lemma EmptyFirstFrom1(S: seq<string>)
    ensures EmptyBeforeNonEmpty([""] + S, 1) <==> EmptyBeforeNonEmpty(S, 0)
  {
    var P := [""] + S;
    if EmptyBeforeNonEmpty(P, 1) {
      var i, j :| 1 <= i < j < |P| && P[i] == "" && P[j] != "";
      assert S[i - 1] == "" && S[j - 1] != "";
    }
    if EmptyBeforeNonEmpty(S, 0) {
      var i, j :| 0 <= i < j < |S| && S[i] == "" && S[j] != "";
      assert P[i + 1] == "" && P[j + 1] != "";
    }
  }

  lemma DashFirstDouble(u: string)
    ensures DoubleDashBeforeText("-" + u) <==> EmptySegmentBeforeText(u)
  {
    var t := "-" + u;
    if DoubleDashBeforeText(t) {
      var i: nat, j: nat :| DoubleDashAt(t, i, j);
      assert 0 <= i - 1 < j - 1 < |u| && OpensEmptySegment(u, i - 1) && u[j - 1] != '-';
    }
    if EmptySegmentBeforeText(u) {
      var a, b :| 0 <= a < b < |u| && OpensEmptySegment(u, a) && u[b] != '-';
      assert t[a + 1] == u[a] && t[a] == (if a == 0 then '-' else u[a - 1]) && t[b + 1] == u[b];
      assert DoubleDashAt(t, a + 1, b + 1);
    }
  }

  lemma TextFirstFrom1(x: string, S: seq<string>)
    requires |S| >= 1
    ensures EmptyBeforeNonEmpty([x] + S[1..], 1) <==> EmptyBeforeNonEmpty(S, 1)
  {
    var P := [x] + S[1..];
    if EmptyBeforeNonEmpty(P, 1) {
      var i, j :| 1 <= i < j < |P| && P[i] == "" && P[j] != "";
      assert S[i] == "" && S[j] != "";
    }
    if EmptyBeforeNonEmpty(S, 1) {
      var i, j :| 1 <= i < j < |S| && S[i] == "" && S[j] != "";
      assert P[i] == "" && P[j] != "";
    }
  }

  lemma LetterFirstDouble(c: char, u: string)
    requires c != '-'
    ensures DoubleDashBeforeText([c] + u) <==> DoubleDashBeforeText(u)
  {
    if DoubleDashBeforeText([c] + u) {
      DoubleDashDropFirst(c, u);
    }
    if DoubleDashBeforeText(u) {
      DoubleDashAddFirst(c, u);
    }
  }

  lemma DoubleDashDropFirst(c: char, u: string)
    requires c != '-' && DoubleDashBeforeText([c] + u)
    ensures DoubleDashBeforeText(u)
  {
    var t := [c] + u;
    assert t[1..] == u;
    var i: nat, j: nat :| DoubleDashAt(t, i, j);
    assert i != 1 by {
      assert t[0] == c;
    }
    assert u[i - 1] == '-' && u[i - 2] == '-' && u[j - 1] != '-';
    assert DoubleDashAt(u, i - 1, j - 1);
  }

  lemma DoubleDashAddFirst(c: char, u: string)
    requires DoubleDashBeforeText(u)
    ensures DoubleDashBeforeText([c] + u)
  {
    var t := [c] + u;
    assert t[1..] == u;
    var a: nat, b: nat :| DoubleDashAt(u, a, b);
    assert t[a + 1] == '-' && t[a] == '-' && t[b + 1] != '-';
    assert DoubleDashAt(t, a + 1, b + 1);
  }

  lemma {:induction false} SplitRawEmptyBeforeText(k: string)
    ensures EmptyBeforeNonEmpty(SplitRaw(k), 0) <==> EmptySegmentBeforeText(k)
    decreases |k|, 1
  {
    if k != [] {
      var t := k[1..];
      var R := SplitRaw(t);
      assert k == [k[0]] + t;
      if k[0] == '-' {
        SplitRawEmptyBeforeText(t);
        SplitRawHasNonEmpty(t);
        EmptyFirst(R);
        DashFirst(t);
      } else {
        SplitRawDoubleDash(t);
        TextFirst([k[0]] + R[0], R);
        LetterFirst(k[0], t);
      }
    }
  }

  lemma {:induction false} SplitRawDoubleDash(t: string)
    ensures EmptyBeforeNonEmpty(SplitRaw(t), 1) <==> DoubleDashBeforeText(t)
    decreases |t|, 0
  {
    if t != [] {
      var u := t[1..];
      var S := SplitRaw(u);
      assert t == [t[0]] + u;
      if t[0] == '-' {
        SplitRawEmptyBeforeText(u);
        EmptyFirstFrom1(S);
        DashFirstDouble(u);
      } else {
        SplitRawDoubleDash(u);
        TextFirstFrom1([t[0]] + S[0], S);
        LetterFirstDouble(t[0], u);
      }
    }
  }

  lemma {:induction false} CanonSegmentsNoneIff(parts: seq<string>)
    ensures CanonSegments(parts).None? <==> exists i :: 0 <= i < |parts| && parts[i] == ""
  {
    if CanonSegments(parts).Some? {
      CanonSegmentsShape(parts);
    } else if parts != [] && parts[0] != "" {
      CanonSegmentsNoneIff(parts[1..]);
      var i :| 0 <= i < |parts[1..]| && parts[1..][i] == "";
      assert parts[i + 1] == "";
    }
  }

  lemma DropTrailingCanonNone(parts: seq<string>)
    ensures CanonSegments(DropTrailingEmpty(parts)).None? <==> EmptyBeforeNonEmpty(parts, 0)
  {
    var d := DropTrailingEmpty(parts);
    CanonSegmentsNoneIff(d);
    if CanonSegments(d).None? {
      var i :| 0 <= i < |d| && d[i] == "";
      assert parts[i] == "" && parts[|d| - 1] != "";
    }
    if EmptyBeforeNonEmpty(parts, 0) {
      var i, j :| 0 <= i < j < |parts| && parts[i] == "" && parts[j] != "";
      assert j < |d|;
      assert d[i] == "";
    }
  }

  /** `upperCaseFirst` throws exactly for the empty key and for keys where an empty segment
      (from a leading dash or from two dashes in a row) comes before some text. Trailing
      dashes are harmless: `split` drops the empty segments they leave. */
  lemma CanonKeyFails(key: string)
    ensures CanonKey(key).None? <==> key == "" || EmptySegmentBeforeText(key)
  {
    if '-' in key {
      SplitRawEmptyBeforeText(key);
      DropTrailingCanonNone(SplitRaw(key));
    } else {
      assert JavaSplit(key) == [key];
      assert [key][1..] == [];
      assert CanonSegments([key]).None? <==> key == "";
      forall i | 0 <= i < |key|
        ensures key[i] != '-'
      {
        assert key[i] in key;
      }
    }
  }

  /** A key made of non-empty dash-free segments canonicalises segment by segment. */
  lemma CanonKeyOfJoin(parts: seq<string>)
    requires parts != []
    requires forall i :: 0 <= i < |parts| ==> parts[i] != "" && NoDash(parts[i])
    ensures CanonSegments(parts).Some?
    ensures CanonKey(Join(parts)) == Some(Join(CanonSegments(parts).value))
  {
    JavaSplitJoin(parts);
    CanonSegmentsNoneIff(parts);
  }

  /** A segment of lower-case letters gets its first letter capitalised and keeps the rest
      ("custom" becomes "Custom"). */
  lemma CanonSegmentOfLowerWord(seg: string)
    requires seg != "" && forall i :: 0 <= i < |seg| ==> IsLower(seg[i])
    ensures CanonSegment(seg) == [ToUpper(seg[0])] + seg[1..]
    ensures IsUpper(CanonSegment(seg)[0])
  {
    assert LowerStr(seg[1..]) == seg[1..];
  }
}
