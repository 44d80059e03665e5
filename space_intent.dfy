/**
 * The QR-code launcher's rule: a scanned payload names a space when the map
 * prefix splits it into exactly two pieces, and then the text after the
 * prefix is the space id handed to the Spaces app, provided the spatial
 * anchors permission is granted and the device is not localized.
 */
module SpaceIntent {
  import opened Wrappers
  import opened Spatial

  /** The launcher's default map prefix. */
  const DefaultMapPrefix: string := "MAGICLEAP-ARCLOUD-MAP-ID:"

  /** `sep` occurs in `s` starting at index `i`. */
  predicate OccursAt(s: string, sep: string, i: nat)
  {
    i + |sep| <= |s| && s[i..i + |sep|] == sep
  }

  /** The first occurrence of a non-empty `sep` in `s` at or after `from`. */
  function IndexFrom(s: string, sep: string, from: nat): (r: Option<nat>)
    requires |sep| > 0 && from <= |s|
    ensures r.Some? ==> from <= r.value && OccursAt(s, sep, r.value)
    ensures r.Some? ==> forall j: nat :: from <= j < r.value ==> !OccursAt(s, sep, j)
    ensures r.None? ==> forall j: nat :: from <= j ==> !OccursAt(s, sep, j)
    decreases |s| - from
  {
    if from + |sep| > |s| then None
    else if OccursAt(s, sep, from) then Some(from)
    else IndexFrom(s, sep, from + 1)
  }

  /** The pieces of `s[from..]` between the non-overlapping occurrences of `sep`, left to right. */
  function SplitFrom(s: string, sep: string, from: nat): (r: seq<string>)
    requires |sep| > 0 && from <= |s|
    ensures |r| >= 1
    decreases |s| - from
  {
    match IndexFrom(s, sep, from)
    case None => [s[from..]]
    case Some(i) => [s[from..i]] + SplitFrom(s, sep, i + |sep|)
  }

  /**
   * `string.Split(string)` with no options: empty pieces are kept, and an
   * empty separator leaves the string whole.
   */
  function Split(s: string, sep: string): seq<string>
  {
    if sep == "" then [s] else SplitFrom(s, sep, 0)
  }

  /** The pieces glued back together with `sep` between them. */
  function Join(pieces: seq<string>, sep: string): string
    requires |pieces| >= 1
    decreases |pieces|
  {
    if |pieces| == 1 then pieces[0] else pieces[0] + sep + Join(pieces[1..], sep)
  }

  lemma {:induction false} SplitFromJoin(s: string, sep: string, from: nat)
    requires |sep| > 0 && from <= |s|
    ensures Join(SplitFrom(s, sep, from), sep) == s[from..]
    decreases |s| - from
  {
    match IndexFrom(s, sep, from)
    case None =>
    case Some(i) =>
      var tail := SplitFrom(s, sep, i + |sep|);
      SplitFromJoin(s, sep, i + |sep|);
      var pieces := SplitFrom(s, sep, from);
      assert pieces == [s[from..i]] + tail;
      assert pieces[1..] == tail;
      assert Join(pieces, sep) == s[from..i] + sep + s[i + |sep|..];
      assert s[from..] == s[from..i] + s[i..i + |sep|] + s[i + |sep|..];
  }

  /** Splitting loses nothing: joining the pieces with the separator gives the payload back. */
  lemma SplitJoin(s: string, sep: string)
    ensures Join(Split(s, sep), sep) == s
  {
    if sep != "" {
      SplitFromJoin(s, sep, 0);
      assert s[0..] == s;
    }
  }

  /** An occurrence inside the slice `s[lo..hi]` is an occurrence in `s` that ends by `hi`. */
  lemma OccursInSlice(s: string, sep: string, lo: nat, hi: nat, j: nat)
    requires lo <= hi <= |s|
    ensures OccursAt(s[lo..hi], sep, j) ==> OccursAt(s, sep, lo + j) && lo + j + |sep| <= hi
  {
    if j + |sep| <= hi - lo {
      var inner := s[lo..hi][j..j + |sep|];
      var outer := s[lo + j..lo + j + |sep|];
      forall k | 0 <= k < |sep| ensures inner[k] == outer[k] {
        assert inner[k] == s[lo + j + k];
      }
      assert inner == outer;
    }
  }

  /** No piece contains the separator. */
  lemma {:induction false} SplitFromPiecesFree(s: string, sep: string, from: nat)
    requires |sep| > 0 && from <= |s|
    ensures forall k, j: nat :: 0 <= k < |SplitFrom(s, sep, from)| ==> !OccursAt(SplitFrom(s, sep, from)[k], sep, j)
    decreases |s| - from
  {
    var pieces := SplitFrom(s, sep, from);
    match IndexFrom(s, sep, from)
    case None =>
      assert s[from..] == s[from..|s|];
      forall j: nat ensures !OccursAt(s[from..], sep, j) {
        OccursInSlice(s, sep, from, |s|, j);
      }
    case Some(i) =>
      SplitFromPiecesFree(s, sep, i + |sep|);
      forall j: nat ensures !OccursAt(s[from..i], sep, j) {
        OccursInSlice(s, sep, from, i, j);
      }
      forall k, j: nat | 1 <= k < |pieces| ensures !OccursAt(pieces[k], sep, j) {
        assert pieces[k] == SplitFrom(s, sep, i + |sep|)[k - 1];
      }
  }

  lemma SplitPiecesFree(s: string, sep: string)
    requires sep != ""
    ensures forall k, j: nat :: 0 <= k < |Split(s, sep)| ==> !OccursAt(Split(s, sep)[k], sep, j)
  {
    SplitFromPiecesFree(s, sep, 0);
  }

  /**
   * `sep` occurs in `s` at `i` such that no occurrence starts before `i` and
   * none starts after this one ends: the separator splits `s` in two.
   */
  ghost predicate SplitsInTwoAt(s: string, sep: string, i: nat)
  {
    && OccursAt(s, sep, i)
    && (forall j: nat :: j < i ==> !OccursAt(s, sep, j))
    && (forall j: nat :: i + |sep| <= j ==> !OccursAt(s, sep, j))
  }

  /** Exactly two pieces: a non-empty separator whose first occurrence is followed by no other. */
  lemma TwoPieces(s: string, sep: string)
    ensures |Split(s, sep)| == 2 <==> sep != "" && exists i: nat :: SplitsInTwoAt(s, sep, i)
    ensures |Split(s, sep)| == 2 ==>
              forall i: nat :: SplitsInTwoAt(s, sep, i) ==> Split(s, sep) == [s[..i], s[i + |sep|..]]
  {
    if sep != "" {
      match IndexFrom(s, sep, 0)
      case None =>
        assert |Split(s, sep)| == 1;
      case Some(i) =>
        var rest := SplitFrom(s, sep, i + |sep|);
        assert Split(s, sep) == [s[0..i]] + rest;
        if IndexFrom(s, sep, i + |sep|).None? {
          assert SplitsInTwoAt(s, sep, i);
          assert s[0..i] == s[..i];
        } else {
          assert |rest| >= 2;
        }
    }
  }

  /** `sep` occurs in `s` exactly once. */
  ghost predicate OccursOnce(s: string, sep: string)
  {
    exists i: nat :: OccursAt(s, sep, i) && forall j: nat :: OccursAt(s, sep, j) ==> j == i
  }

  /** The last character of `sep` appears nowhere else in it, so two occurrences never overlap. */
  predicate LastCharUnique(sep: string)
  {
    |sep| > 0 && forall k :: 0 <= k < |sep| - 1 ==> sep[k] != sep[|sep| - 1]
  }

  /** Two overlapping occurrences make the separator's last character reappear earlier in it. */
  lemma OverlapRepeatsLastChar(s: string, sep: string, i: nat, j: nat)
    requires OccursAt(s, sep, i) && OccursAt(s, sep, j) && i < j < i + |sep|
    ensures sep[i + |sep| - 1 - j] == sep[|sep| - 1]
  {
    var m := i + |sep| - 1;
    assert s[i..i + |sep|][|sep| - 1] == s[m];
    assert s[j..j + |sep|][m - j] == s[m];
  }

  /** Two occurrences of a separator whose last character is unique are at least its length apart. */
  lemma NoOverlap(s: string, sep: string, i: nat, j: nat)
    requires LastCharUnique(sep) && OccursAt(s, sep, i) && OccursAt(s, sep, j) && i < j
    ensures i + |sep| <= j
  {
    if j < i + |sep| {
      OverlapRepeatsLastChar(s, sep, i, j);
      assert false;
    }
  }

  /** For such a separator, two pieces means the prefix occurs exactly once. */
  lemma TwoPiecesIffOnce(s: string, sep: string)
    requires LastCharUnique(sep)
    ensures |Split(s, sep)| == 2 <==> OccursOnce(s, sep)
  {
    TwoPieces(s, sep);
    if |Split(s, sep)| == 2 {
      var i: nat :| SplitsInTwoAt(s, sep, i);
      forall j: nat | OccursAt(s, sep, j) ensures j == i {
        if i < j { NoOverlap(s, sep, i, j); }
      }
    }
    if OccursOnce(s, sep) {
      var i: nat :| OccursAt(s, sep, i) && forall j: nat :: OccursAt(s, sep, j) ==> j == i;
      assert SplitsInTwoAt(s, sep, i);
    }
  }

  lemma DefaultMapPrefixLastCharUnique()
    ensures LastCharUnique(DefaultMapPrefix)
  {
  }

  /**
   * TryLocalize: the space id to open the Spaces app with, if any. The
   * payload must split in two around the prefix, the permission must be
   * granted and the device must not be localized; the id is the text after
   * the prefix, and whatever precedes it is dropped.
   */
  function TryLocalize(qrCodeData: string, mapPrefix: string, permissionOk: bool, status: LocalizationStatus)
    : (r: Option<string>)
    ensures r.Some? <==> && mapPrefix != "" && (exists i: nat :: SplitsInTwoAt(qrCodeData, mapPrefix, i))
                         && permissionOk && status == NotLocalized
    ensures r.Some? ==> forall i: nat :: SplitsInTwoAt(qrCodeData, mapPrefix, i) ==>
                          r.value == qrCodeData[i + |mapPrefix|..]
    ensures r.Some? ==> forall j: nat :: !OccursAt(r.value, mapPrefix, j)
  {
    var sections := Split(qrCodeData, mapPrefix);
    TwoPieces(qrCodeData, mapPrefix);
    if |sections| == 2 && permissionOk && status == NotLocalized then
      SplitPiecesFree(qrCodeData, mapPrefix);
      Some(sections[1])
    else None
  }

  /** With the default prefix, a launch happens exactly when the prefix occurs once. */
  lemma DefaultPrefixLaunchesOnce(qrCodeData: string, permissionOk: bool, status: LocalizationStatus)
    ensures TryLocalize(qrCodeData, DefaultMapPrefix, permissionOk, status).Some? <==>
              OccursOnce(qrCodeData, DefaultMapPrefix) && permissionOk && status == NotLocalized
  {
    DefaultMapPrefixLastCharUnique();
    TwoPiecesIffOnce(qrCodeData, DefaultMapPrefix);
    TwoPieces(qrCodeData, DefaultMapPrefix);
  }

  /** A payload made of the prefix and an id launches with that id; a payload without the prefix does not. */
  lemma LaunchExamples()
    ensures TryLocalize("MAGICLEAP-ARCLOUD-MAP-ID:abc", DefaultMapPrefix, true, NotLocalized) == Some("abc")
    ensures TryLocalize("abc", DefaultMapPrefix, true, NotLocalized) == None
  {
    var qr := "MAGICLEAP-ARCLOUD-MAP-ID:abc";
    assert qr[0..|DefaultMapPrefix|] == DefaultMapPrefix;
    assert SplitsInTwoAt(qr, DefaultMapPrefix, 0);
    assert qr[|DefaultMapPrefix|..] == "abc";
  }
}
