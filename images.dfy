/** `getRandomImage` (index.js): the per-project folder name, the image-file
    filter and the uniform random choice among the images. Reading the folder
    and the chosen file are I/O: the directory listing comes in as
    `Some(names)`, or `None` when the folder could not be read. */
module Images {
  import opened Wrappers
  import opened Seqs
  import opened Text

  /** The project name with every character outside `[a-zA-Z0-9]` removed. */
  function FolderName(project: string): (r: string)
    ensures forall k :: 0 <= k < |r| ==> IsAsciiAlnum(r[k])
    ensures |r| <= |project|
  {
    Filter(IsAsciiAlnum, project)
  }

  /** Letters and digits are kept, in their original order: the folder name
      of a concatenation is the concatenation of the folder names. */
  lemma FolderNameConcat(a: string, b: string)
    ensures FolderName(a + b) == FolderName(a) + FolderName(b)
  {
    FilterConcat(IsAsciiAlnum, a, b);
  }

  /** A character survives exactly when it is an ASCII letter or digit. */
  lemma FolderNameMember(project: string, c: char)
    ensures c in FolderName(project) <==> c in project && IsAsciiAlnum(c)
  {
    FilterMember(IsAsciiAlnum, project, c);
  }

  /** Sanitising a folder name again changes nothing. */
  lemma FolderNameIdempotent(project: string)
    ensures FolderName(FolderName(project)) == FolderName(project)
  {
    FilterIdempotent(IsAsciiAlnum, project);
  }

  /** "Union Build" maps to the folder "UnionBuild". */
  lemma UnionBuildFolder()
    ensures FolderName("Union Build") == "UnionBuild"
  {
    assert "Union Build" == "Union" + [' '] + "Build";
    assert "UnionBuild" == "Union" + "Build";
    FolderNameDropsOne("Union", ' ', "Build");
  }

  /** One character outside `[a-zA-Z0-9]` between two alphanumeric names
      disappears from the folder name. */
  lemma FolderNameDropsOne(a: string, c: char, b: string)
    requires forall k :: 0 <= k < |a| ==> IsAsciiAlnum(a[k])
    requires forall k :: 0 <= k < |b| ==> IsAsciiAlnum(b[k])
    requires !IsAsciiAlnum(c)
    ensures FolderName(a + [c] + b) == a + b
  {
    FolderNameConcat(a + [c], b);
    FolderNameConcat(a, [c]);
    assert FolderName([c]) == [];
    FolderNameOfAlnum(a);
    FolderNameOfAlnum(b);
  }

  /** A name made only of letters and digits is its own folder name. */
  lemma FolderNameOfAlnum(s: string)
    requires forall k :: 0 <= k < |s| ==> IsAsciiAlnum(s[k])
    ensures FolderName(s) == s
  {
    FilterAllKept(IsAsciiAlnum, s);
  }

  /** The test `/\.(jpg|jpeg|png)$/i`: the name ends in `.jpg`, `.jpeg` or
      `.png`, in any letter case. */
  predicate IsImageName(name: string)
    ensures IsImageName(name) ==>
              (|name| >= 4 && name[|name| - 4] == '.') || (|name| >= 5 && name[|name| - 5] == '.')
  {
    // Each `+ 0` spells the term `EndsWithIgnoreCase` quantifies over, so
    // that its first character, the dot, is looked at.
    assert EndsWithIgnoreCase(name, ".jpg") ==> LowerAscii(name[|name| - |".jpg"| + 0]) == ".jpg"[0];
    assert EndsWithIgnoreCase(name, ".png") ==> LowerAscii(name[|name| - |".png"| + 0]) == ".png"[0];
    assert EndsWithIgnoreCase(name, ".jpeg") ==> LowerAscii(name[|name| - |".jpeg"| + 0]) == ".jpeg"[0];
    EndsWithIgnoreCase(name, ".jpg") || EndsWithIgnoreCase(name, ".jpeg") ||
    EndsWithIgnoreCase(name, ".png")
  }

  lemma ImageNameExamples()
    ensures IsImageName("a.JPG") && IsImageName("x.JpEg")
    ensures !IsImageName("a.gif") && !IsImageName("jpg")
  {
    assert LowerAscii("a.gif"[2]) != ".jpg"[1];
    assert LowerAscii("a.gif"[0]) != ".jpeg"[0];
    assert LowerAscii("a.gif"[2]) != ".png"[1];
  }

  /** `files.filter(...)`: the image names of a directory listing. */
  function ImageFiles(files: seq<string>): (images: seq<string>)
    ensures forall k :: 0 <= k < |images| ==> IsImageName(images[k])
    ensures |images| <= |files|
  {
    Filter(IsImageName, files)
  }

  /** The filter keeps exactly the image names, in listing order. */
  lemma ImageFilesExact(files: seq<string>, name: string)
    ensures name in ImageFiles(files) <==> name in files && IsImageName(name)
  {
    FilterMember(IsImageName, files, name);
  }

  lemma ImageFilesConcat(a: seq<string>, b: seq<string>)
    ensures ImageFiles(a + b) == ImageFiles(a) + ImageFiles(b)
  {
    FilterConcat(IsImageName, a, b);
  }

  /** `Math.floor(draw * n)`, the index picked by a random `draw` in [0, 1)
      among `n` candidates. */
  function RandomIndex(draw: real, n: nat): (i: nat)
    requires 0.0 <= draw < 1.0 && n > 0
    ensures i < n
  {
    var x := draw * n as real;
    assert 0.0 <= x < n as real;
    x.Floor
  }

  /** The name of the image `getRandomImage` reads, or `None` (its `null`)
      when the folder cannot be listed or holds no image file. */
  function PickImage(listing: Option<seq<string>>, draw: real): (r: Option<string>)
    requires 0.0 <= draw < 1.0
    ensures r.Some? <==> listing.Some? && exists k :: 0 <= k < |listing.value| && IsImageName(listing.value[k])
    ensures r.Some? ==> r.value in listing.value && IsImageName(r.value)
  {
    match listing
    case None => None
    case Some(files) =>
      var images := ImageFiles(files);
      if |images| == 0 then
        assert forall k :: 0 <= k < |files| ==> !IsImageName(files[k]) by {
          forall k | 0 <= k < |files| ensures !IsImageName(files[k]) {
            ImageFilesExact(files, files[k]);
          }
        }
        None
      else
        var name := images[RandomIndex(draw, |images|)];
        ImageFilesExact(files, name);
        Some(name)
  }
}
