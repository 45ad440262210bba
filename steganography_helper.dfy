/** `SteganographyHelper.getImageFormat` and its copy `StegoHelper.getFormat`: the format name
    `ImageIO.write` is given is the file name's extension, "png" when there is none. */
module SteganographyHelper {
  import opened Outcomes
  import opened Binary

  /** "png". */
  const Png: Text := [112, 110, 103]

  /** `s.lastIndexOf(c)`: the last position holding c; `None` stands for -1. */
  function LastIndexOf(s: Text, c: CodeUnit): (r: Option<nat>)
    ensures r.None? <==> c !in s
    ensures r.Some? ==> r.value < |s| && s[r.value] == c
    ensures r.Some? ==> forall k | r.value < k < |s| :: s[k] != c
  {
    if s == [] then None
    else if s[|s| - 1] == c then Some(|s| - 1)
    else
      var r := LastIndexOf(s[..|s| - 1], c);
      assert s == s[..|s| - 1] + [s[|s| - 1]];
      r
  }

  /** `getImageFormat(filename)`: no dot gives "png"; otherwise what follows the last dot, which
      holds no dot itself, so that the name is some prefix, a dot and the result. */
  function GetImageFormat(filename: Text): (f: Text)
    ensures Dot !in filename ==> f == Png
    ensures Dot in filename ==>
      && |f| < |filename|
      && Dot !in f
      && filename == filename[..|filename| - |f| - 1] + [Dot] + f
  {
    match LastIndexOf(filename, Dot)
    case None => Png
    case Some(d) =>
      var f := filename[d + 1..];
      assert Dot !in f by {
        forall k | 0 <= k < |f| ensures f[k] != Dot {
          assert f[k] == filename[d + 1 + k];
        }
      }
      assert filename == filename[..d] + [Dot] + f;
      f
  }

  /** The extension is what follows the last dot: whatever the prefix, a name made of a prefix, a
      dot and a dot-free tail has that tail as its format. */
  lemma FormatOfSplit(prefix: Text, ext: Text)
    requires Dot !in ext
    ensures GetImageFormat(prefix + [Dot] + ext) == ext
  {
    var s := prefix + [Dot] + ext;
    assert s[|prefix|] == Dot;
    var d := LastIndexOf(s, Dot).value;
    assert d == |prefix|;
    assert s[d + 1..] == ext;
  }

  /** A name ending in a dot has the empty format. */
  lemma TrailingDot(prefix: Text)
    ensures GetImageFormat(prefix + [Dot]) == []
  {
    FormatOfSplit(prefix, []);
    assert prefix + [Dot] + [] == prefix + [Dot];
  }
}
