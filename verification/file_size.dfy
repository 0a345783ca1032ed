/** The byte-count formatter that the update check uses for the release
    asset's size, the download service exposes, and the update dialog inlines
    for its progress labels: whole mebibytes, else whole kibibytes, else
    plain bytes. */
module FileSize {
  import opened Text
  import Arith

  const KiB: int := 1024
  const MiB: int := 1024 * 1024

  /** `r` reads "<count> <unit>". */
  predicate Shows(r: string, count: int, unit: string) {
    r == IntToString(count) + " " + unit
  }

  /** `r` shows the whole number of units of `unitSize` bytes contained in
      `bytes`, rounded down, and that number is at least one. */
  ghost predicate ShowsWhole(r: string, bytes: int, unit: string, unitSize: int) {
    exists c :: Shows(r, c, unit) && 1 <= c && c * unitSize <= bytes < (c + 1) * unitSize
  }

  /** Picks the largest unit that is not larger than the count and shows the
      whole number of that unit, rounded down. */
  function Format(bytes: int): (r: string)
    ensures bytes >= MiB ==> ShowsWhole(r, bytes, "MB", MiB)
    ensures KiB <= bytes < MiB ==> ShowsWhole(r, bytes, "KB", KiB)
    ensures bytes < KiB ==> Shows(r, bytes, "bytes")
  {
    if bytes >= MiB then
      Arith.DivBounds(bytes, MiB);
      assert Shows(IntToString(bytes / MiB) + " MB", bytes / MiB, "MB");
      IntToString(bytes / MiB) + " MB"
    else if bytes >= KiB then
      Arith.DivBounds(bytes, KiB);
      assert Shows(IntToString(bytes / KiB) + " KB", bytes / KiB, "KB");
      IntToString(bytes / KiB) + " KB"
    else IntToString(bytes) + " bytes"
  }

  /** The unit at the end of the text tells which threshold the count met:
      the three cases are disjoint and cover every count. */
  lemma FormatUnitMatchesThreshold(bytes: int)
    ensures EndsWith(Format(bytes), " MB") <==> bytes >= MiB
    ensures EndsWith(Format(bytes), " KB") <==> KiB <= bytes < MiB
    ensures EndsWith(Format(bytes), " bytes") <==> bytes < KiB
  {
    var r := Format(bytes);
    var n := |r|;
    if bytes >= MiB {
      var x := IntToString(bytes / MiB);
      assert r == x + " MB";
      assert r[n - 3..] == " MB";
      assert r[n - 2] == 'M' && r[n - 1] == 'B';
      assert r[n - 3..][1] == 'M';
    } else if bytes >= KiB {
      var x := IntToString(bytes / KiB);
      assert r == x + " KB";
      assert r[n - 3..] == " KB";
      assert r[n - 1] == 'B';
      assert r[n - 3..][1] == 'K';
    } else {
      var x := IntToString(bytes);
      assert r == x + " bytes";
      assert r[n - 6..] == " bytes";
      assert r[n - 1] == 's';
      assert r[n - 3..][2] == 's';
    }
  }
}
