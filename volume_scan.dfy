/**
 * How `mount_dmg` finds the mounted AlDente volume: it reads the text printed by
 * `hdiutil info`, takes the first line that mentions one of two volume names,
 * and returns that line's last whitespace-separated token.
 */
module VolumeScan {
  import opened Wrappers
  import opened PyStr

  const VolumePattern: string := "/Volumes/AlDente"
  const ProPattern: string := "/Volumes/AlDentePro"

  /** The test applied to each line of the listing. */
  predicate Matches(line: string) {
    Contains(line, VolumePattern) || Contains(line, ProPattern)
  }

  /** The second pattern extends the first, so testing it as well changes nothing. */
  lemma ProPatternRedundant(line: string)
    ensures Matches(line) <==> Contains(line, VolumePattern)
  {
    if Contains(line, ProPattern) {
      var i :| 0 <= i <= |line| && ProPattern <= line[i..];
      assert VolumePattern == ProPattern[..|VolumePattern|];
      ContainsAt(line, VolumePattern, i);
    }
  }

  /** A matching line always has a last token, so `line.split()[-1]` cannot fail. */
  lemma MatchHasWord(line: string)
    requires Matches(line)
    ensures Split(line) != []
  {
    ProPatternRedundant(line);
    var i :| 0 <= i <= |line| && VolumePattern <= line[i..];
    assert line[i] == VolumePattern[0] == '/';
    SplitEmptyIff(line);
  }

  /** The loop of `mount_dmg` over the lines of the listing, as a first-match search. */
  function ScanLines(lines: seq<string>): (volume: Option<string>)
    ensures volume.Some? ==> IsWord(volume.value)
  {
    if lines == [] then None
    else if Matches(lines[0]) then
      MatchHasWord(lines[0]);
      Some(LastWord(lines[0]))
    else ScanLines(lines[1..])
  }

  /** The volume path found in the output of `hdiutil info`, or None. */
  function FindVolume(listing: string): (volume: Option<string>)
    ensures volume.Some? ==> IsWord(volume.value)
  {
    ScanLines(SplitLines(listing))
  }

  /** The scan returns the last token of the first matching line. */
  lemma {:induction false} ScanFindsFirstMatch(lines: seq<string>, k: nat)
    requires k < |lines| && Matches(lines[k])
    requires forall j :: 0 <= j < k ==> !Matches(lines[j])
    ensures Split(lines[k]) != []
    ensures ScanLines(lines) == Some(LastWord(lines[k]))
  {
    MatchHasWord(lines[k]);
    if k > 0 {
      assert !Matches(lines[0]);
      ScanFindsFirstMatch(lines[1..], k - 1);
    }
  }

  /** The scan finds nothing exactly when no line matches. */
  lemma {:induction false} ScanNoneIff(lines: seq<string>)
    ensures ScanLines(lines).None? <==> forall k :: 0 <= k < |lines| ==> !Matches(lines[k])
  {
    if lines != [] {
      ScanNoneIff(lines[1..]);
      assert forall k :: 1 <= k < |lines| ==> lines[k] == lines[1..][k - 1];
    }
  }

  /** Once a line has matched, whatever the listing holds after it is ignored. */
  lemma {:induction false} ScanIgnoresLaterLines(lines: seq<string>, more: seq<string>)
    requires ScanLines(lines).Some?
    ensures ScanLines(lines + more) == ScanLines(lines)
  {
    assert (lines + more)[0] == lines[0];
    if !Matches(lines[0]) {
      assert (lines + more)[1..] == lines[1..] + more;
      ScanIgnoresLaterLines(lines[1..], more);
    }
  }

  /**
   * Over the whole listing: no volume is found exactly when `/Volumes/AlDente`
   * appears nowhere in the text (the pattern holds no line boundary, so an
   * occurrence always lies within one line).
   */
  lemma FindVolumeNoneIff(listing: string)
    ensures FindVolume(listing).None? <==> !Contains(listing, VolumePattern)
  {
    var lines := SplitLines(listing);
    ScanNoneIff(lines);
    assert NoLineBreak(VolumePattern);
    ContainsInSomeLine(listing, VolumePattern);
    forall line | line in lines
      ensures Matches(line) <==> Contains(line, VolumePattern)
    {
      ProPatternRedundant(line);
    }
    if Contains(listing, VolumePattern) {
      var line :| line in lines && Contains(line, VolumePattern);
      var k :| 0 <= k < |lines| && lines[k] == line;
      assert Matches(lines[k]);
    }
  }

  /**
   * For a listing printed one line per row, the volume is the final run of
   * non-whitespace characters on the first row that mentions `/Volumes/AlDente`.
   */
  lemma FindVolumeOfRows(rows: seq<string>, k: nat)
    requires forall j :: 0 <= j < |rows| ==> NoLineBreak(rows[j])
    requires k < |rows| && Contains(rows[k], VolumePattern)
    requires forall j :: 0 <= j < k ==> !Contains(rows[j], VolumePattern)
    ensures FindVolume(Terminated(rows)) == Some(FinalRun(rows[k]))
  {
    SplitLinesTerminated(rows);
    forall j | 0 <= j <= k
      ensures Matches(rows[j]) <==> Contains(rows[j], VolumePattern)
    {
      ProPatternRedundant(rows[j]);
    }
    ScanFindsFirstMatch(rows, k);
    LastWordIsFinalRun(rows[k]);
  }

  /**
   * The loop of `mount_dmg` as the source writes it: walk the lines of the listing
   * and return at the first match.
   */
  method ScanVolume(listing: string) returns (volume: Option<string>)
    ensures volume == FindVolume(listing)
  {
    var lines := SplitLines(listing);
    for i := 0 to |lines|
      invariant ScanLines(lines[i..]) == ScanLines(lines)
    {
      assert lines[i..][0] == lines[i] && lines[i..][1..] == lines[i + 1..];
      if Matches(lines[i]) {
        MatchHasWord(lines[i]);
        volume := Some(LastWord(lines[i]));
        return;
      }
    }
    volume := None;
  }
}
