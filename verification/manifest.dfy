/**
 * The checksum manifest of `ChecksumBuilder/make_manifest.py` and
 * `ChecksumChecker/verify_manifest.py`. The builder lists the PNG images of a
 * folder, sorted by lower-cased name, one "<md5>  <name>" line each; the checker
 * parses every line back and compares the named file's digest with the listed one.
 *
 * MD5 is an `Md5` oracle from bytes to the hexadecimal digest, and the folder is a
 * `Folder` oracle from a name to what `folder / name` is on disk.
 */
module Manifest {
  import opened Wrappers
  import opened Struct
  import opened Text
  import opened Sorting
  import Sender

  /** `hashlib.md5(data).hexdigest()`. */
  type Md5 = seq<byte> -> string

  /** What `folder / name` is: absent, a directory, or a regular file with its bytes. */
  type Folder = string -> Sender.Node

  /** What separates the digest from the name on a manifest line. */
  const Separator: string := "  "

  /** A digit of `hexdigest`: 0-9 and lower-case a-f. */
  predicate IsHexDigit(c: char)
  {
    '0' <= c <= '9' || 'a' <= c <= 'f'
  }

  /** A digest as `hexdigest` writes it: 32 lower-case hexadecimal digits. */
  predicate IsDigest(d: string)
  {
    |d| == 32 && forall i :: 0 <= i < |d| ==> IsHexDigit(d[i])
  }

  /** s holds no whitespace at all. */
  predicate NoSpace(s: string)
  {
    forall i :: 0 <= i < |s| ==> !IsSpace(s[i])
  }

  /** A line `parse_manifest` accepted: the expected digest and the file name. */
  datatype Line = Line(digest: string, name: string)

  // ---------------------------------------------------------------- one line

  /**
   * `parse_manifest(line)`: strip the line, split it at the first two spaces in
   * a row, strip both parts, and accept it when the first part has exactly 32
   * characters, returning that part lower-cased and the second part.
   */
  function ParseManifest(line: string): (r: Option<Line>)
    ensures r.Some? ==> |r.value.digest| == 32 && Lower(r.value.digest) == r.value.digest
    ensures r.Some? ==> Trimmed(r.value.name)
    ensures AllSpace(line) ==> r.None?
  {
    var s := Strip(line);
    if |s| == 0 then None
    else
      var parts := SplitOnce(s, Separator);
      if |parts| != 2 then None
      else
        var digest := Strip(parts[0]);
        if |digest| != 32 then None
        else
          LowerFixes(digest);
          Some(Line(Lower(digest), Strip(parts[1])))
  }

  /** A line with no two spaces in a row anywhere is skipped. */
  lemma ParseNeedsSeparator(line: string)
    requires forall i: nat :: !OccursAt(line, Separator, i)
    ensures ParseManifest(line) == None
  {
    StripKeepsAbsent(line, Separator);
  }

  /**
   * A line whose stripped text is a whitespace-free field, two spaces, and a
   * non-empty trimmed rest is accepted exactly when the field has 32 characters,
   * whatever they are (there is no hexadecimal check); the digest is the field
   * lower-cased and the name is the rest, two spaces in a row inside it included.
   */
  lemma ParseFields(line: string, field: string, rest: string)
    requires |field| > 0 && NoSpace(field) && |rest| > 0 && Trimmed(rest)
    requires Strip(line) == field + Separator + rest
    ensures ParseManifest(line) == if |field| == 32 then Some(Line(Lower(field), rest)) else None
  {
    SplitAtSeparator(field, rest);
    StripTrimmed(field);
    StripTrimmed(rest);
  }

  /** A whitespace-free field followed by the separator splits there, whatever follows. */
  lemma SplitAtSeparator(field: string, rest: string)
    requires NoSpace(field)
    ensures SplitOnce(field + Separator + rest, Separator) == [field, rest]
  {
    var s := field + Separator + rest;
    var k := |field|;
    assert s[k..k + 2] == Separator;
    forall j: nat | j < k
      ensures !OccursAt(s, Separator, j)
    {
      assert s[j] == field[j] && !IsSpace(s[j]);
    }
    FindFirst(s, Separator, k);
    assert s[..k] == field && s[k + 2..] == rest;
  }

  /** The line `make_manifest` writes for a file, without its line feed. */
  function FormatLine(digest: string, name: string): string
  {
    digest + Separator + name
  }

  /** A hexadecimal digest has no whitespace and no capital. */
  lemma DigestPlain(digest: string)
    requires IsDigest(digest)
    ensures NoSpace(digest) && NoBreak(digest) && Lower(digest) == digest
  {
    LowerFixes(digest);
  }

  /** A line for a digest and a trimmed name, parsed, gives back that digest and that name. */
  lemma ParseFormatLine(digest: string, name: string)
    requires IsDigest(digest) && |name| > 0 && Trimmed(name)
    ensures ParseManifest(FormatLine(digest, name)) == Some(Line(digest, name))
  {
    var s := FormatLine(digest, name);
    DigestPlain(digest);
    StripTrimmed(s);
    ParseFields(s, digest, name);
  }

  /**
   * A name with whitespace after it does not come back: the checker strips it and
   * looks for a file of another name.
   */
  lemma PaddedNameStripped(digest: string, name: string, pad: string)
    requires IsDigest(digest) && |name| > 0 && Trimmed(name) && AllSpace(pad)
    ensures ParseManifest(FormatLine(digest, name + pad)) == Some(Line(digest, name))
  {
    var s := digest + Separator + name;
    DigestPlain(digest);
    assert FormatLine(digest, name + pad) == s + pad;
    StripTrailing(s, pad);
    ParseFields(FormatLine(digest, name + pad), digest, name);
  }

  /** A line for a hexadecimal digest and a name without line breaks has no line break. */
  lemma FormatLineNoBreak(digest: string, name: string)
    requires IsDigest(digest) && NoBreak(name)
    ensures NoBreak(FormatLine(digest, name))
  {
    var s := FormatLine(digest, name);
    forall i | 0 <= i < |s|
      ensures !IsLineBreak(s[i])
    {
      if i < |digest| {
        assert s[i] == digest[i];
      } else if i >= |digest| + 2 {
        assert s[i] == name[i - |digest| - 2];
      }
    }
  }

  // --------------------------------------------------------------- checking

  /** What `verify_checksum` returns: the entries checked and how many of them failed. */
  datatype Tally = Tally(checked: nat, failures: nat)

  /** Why `verify_checksum` stops without a tally. */
  datatype VerifyError =
    | ManifestNotFound              // `SystemExit`: manifest.md5 is not in the folder
    | NoReadableEntries             // `SystemExit`: no line was accepted
    | IsADirectory(name: string)    // `compute_md5` opened a directory

  /** A reader of manifest lines; `verify_checksum` uses `ParseManifest`. */
  type Parser = string -> Option<Line>

  /** The lines the parser accepts, parsed, in manifest order. */
  function Entries(lines: seq<string>, parse: Parser): (r: seq<Line>)
    ensures |r| <= |lines|
  {
    if |lines| == 0 then []
    else
      var init := Entries(lines[..|lines| - 1], parse);
      match parse(lines[|lines| - 1])
      case None => init
      case Some(l) => init + [l]
  }

  /** How many entries name a file the folder does not have. */
  function MissingCount(entries: seq<Line>, folder: Folder): nat
  {
    if |entries| == 0 then 0
    else MissingCount(entries[..|entries| - 1], folder)
         + (if folder(entries[|entries| - 1].name).Missing? then 1 else 0)
  }

  /** How many entries name a regular file whose digest is not the listed one. */
  function ChangedCount(entries: seq<Line>, folder: Folder, md5: Md5): nat
  {
    if |entries| == 0 then 0
    else
      var l := entries[|entries| - 1];
      ChangedCount(entries[..|entries| - 1], folder, md5)
      + (match folder(l.name)
         case Regular(content) => if md5(content) != l.digest then 1 else 0
         case _ => 0)
  }

  /** The name of the first entry that names a directory, if one does. */
  function FirstDirectory(entries: seq<Line>, folder: Folder): (r: Option<string>)
    ensures r.None? <==> forall i :: 0 <= i < |entries| ==> !folder(entries[i].name).Directory?
    ensures r.Some? ==> exists i :: && 0 <= i < |entries| && folder(entries[i].name).Directory? && entries[i].name == r.value
                                   && forall j :: 0 <= j < i ==> !folder(entries[j].name).Directory?
  {
    if |entries| == 0 then None
    else
      var init := entries[..|entries| - 1];
      var last := entries[|entries| - 1];
      assert forall i :: 0 <= i < |init| ==> init[i] == entries[i];
      match FirstDirectory(init, folder)
      case Some(n) => Some(n)
      case None => if folder(last.name).Directory? then Some(last.name) else None
  }

  /** A missing file and a changed file are different failures, so there are no more of them than entries. */
  lemma {:induction false} FailuresBounded(entries: seq<Line>, folder: Folder, md5: Md5)
    ensures MissingCount(entries, folder) + ChangedCount(entries, folder, md5) <= |entries|
    decreases |entries|
  {
    if |entries| > 0 {
      FailuresBounded(entries[..|entries| - 1], folder, md5);
    }
  }

  /**
   * One accepted line of the loop of `verify_checksum`: the entry is checked, and
   * fails when its file is missing or its digest differs; a directory makes
   * `compute_md5` raise.
   */
  function Check(t: Tally, l: Line, folder: Folder, md5: Md5): Result<Tally, VerifyError>
  {
    match folder(l.name)
    case Missing => Success(Tally(t.checked + 1, t.failures + 1))
    case Directory => Failure(IsADirectory(l.name))
    case Regular(content) =>
      Success(Tally(t.checked + 1, t.failures + if md5(content) != l.digest then 1 else 0))
  }

  /** The loop of `verify_checksum` over the manifest's lines; a skipped line changes nothing. */
  function TallyLines(lines: seq<string>, parse: Parser, folder: Folder, md5: Md5): Result<Tally, VerifyError>
    decreases |lines|
  {
    if |lines| == 0 then Success(Tally(0, 0))
    else
      match TallyLines(lines[..|lines| - 1], parse, folder, md5)
      case Failure(e) => Failure(e)
      case Success(t) =>
        match parse(lines[|lines| - 1])
        case None => Success(t)
        case Some(l) => Check(t, l, folder, md5)
  }

  /**
   * What checking a list of entries comes to, counted over the whole list: the
   * first directory named, if any; otherwise every entry checked, and as failures
   * the missing files plus the changed ones.
   */
  function Expected(entries: seq<Line>, folder: Folder, md5: Md5): Result<Tally, VerifyError>
  {
    match FirstDirectory(entries, folder)
    case Some(name) => Failure(IsADirectory(name))
    case None => Success(Tally(|entries|, MissingCount(entries, folder) + ChangedCount(entries, folder, md5)))
  }

  /** The counts over the entries and one more are the counts over the entries, then one check. */
  lemma ExpectedSnoc(es0: seq<Line>, l: Line, folder: Folder, md5: Md5)
    ensures Expected(es0 + [l], folder, md5)
            == match Expected(es0, folder, md5)
               case Failure(e) => Failure(e)
               case Success(t) => Check(t, l, folder, md5)
  {
    EntriesSnoc(es0, l);
  }

  /** Entries followed by one more: the earlier entries come first, and the new entry is last. */
  lemma EntriesSnoc(es0: seq<Line>, l: Line)
    ensures (es0 + [l])[..|es0|] == es0 && (es0 + [l])[|es0|] == l
  {
  }

  /** One more line keeps the loop in step with the counts over the accepted lines. */
  lemma TallyStep(lines: seq<string>, parse: Parser, folder: Folder, md5: Md5)
    requires |lines| > 0
    requires var init := lines[..|lines| - 1];
             TallyLines(init, parse, folder, md5) == Expected(Entries(init, parse), folder, md5)
    ensures TallyLines(lines, parse, folder, md5) == Expected(Entries(lines, parse), folder, md5)
  {
    var es0 := Entries(lines[..|lines| - 1], parse);
    match parse(lines[|lines| - 1])
    case None =>
    case Some(l) =>
      ExpectedSnoc(es0, l, folder, md5);
  }

  /**
   * The loop stops at the first accepted line that names a directory; without
   * one, it checks every accepted line and counts as failures the missing files
   * plus the changed ones.
   */
  lemma {:induction false} TallyCounts(lines: seq<string>, parse: Parser, folder: Folder, md5: Md5)
    ensures TallyLines(lines, parse, folder, md5) == Expected(Entries(lines, parse), folder, md5)
    decreases |lines|
  {
    if |lines| > 0 {
      TallyCounts(lines[..|lines| - 1], parse, folder, md5);
      TallyStep(lines, parse, folder, md5);
    }
  }

  /**
   * `verify_checksum(folder)`, given the text of the folder's manifest.md5 (None
   * when there is none): the tally of its lines, an error when the manifest is
   * missing or no line was accepted, and the error of a directory an accepted
   * line names.
   */
  function VerifyChecksum(manifest: Option<string>, folder: Folder, md5: Md5): (r: Result<Tally, VerifyError>)
    ensures manifest.None? ==> r == Failure(ManifestNotFound)
    ensures manifest.Some? ==>
              var es := Entries(SplitLines(manifest.value), ParseManifest);
              && (r.Success? <==> |es| > 0 && FirstDirectory(es, folder).None?)
              && (r.Success? ==> r.value == Tally(|es|, MissingCount(es, folder) + ChangedCount(es, folder, md5)))
              && (r == Failure(NoReadableEntries) <==> |es| == 0)
    ensures r.Success? ==> 0 < r.value.checked && r.value.failures <= r.value.checked
  {
    match manifest
    case None => Failure(ManifestNotFound)
    case Some(text) =>
      var lines := SplitLines(text);
      TallyCounts(lines, ParseManifest, folder, md5);
      FailuresBounded(Entries(lines, ParseManifest), folder, md5);
      match TallyLines(lines, ParseManifest, folder, md5)
      case Failure(e) => Failure(e)
      case Success(t) => if t.checked == 0 then Failure(NoReadableEntries) else Success(t)
  }

  // --------------------------------------------------------------- building

  /** `item.is_file() and item.suffix.lower() == ".png"`. */
  predicate IsImage(e: Sender.Entry)
  {
    e.node.Regular? && Sender.IsPng(e.name)
  }

  /** The image entries of a listing, in listing order. */
  function ImageEntries(listing: seq<Sender.Entry>): (r: seq<Sender.Entry>)
    ensures forall e :: e in r <==> e in listing && IsImage(e)
  {
    if |listing| == 0 then []
    else (if IsImage(listing[0]) then [listing[0]] else []) + ImageEntries(listing[1..])
  }

  /** `path.name.lower()`, the key `find_images` sorts by. */
  function LowerName(e: Sender.Entry): string
  {
    Lower(e.name)
  }

  /**
   * `find_images(folder)` over the folder's listing: exactly its image entries,
   * each as often as listed, in ascending order of lower-cased name.
   */
  function FindImages(listing: seq<Sender.Entry>): (r: seq<Sender.Entry>)
    ensures multiset(r) == multiset(ImageEntries(listing))
    ensures forall e :: e in r <==> e in listing && IsImage(e)
    ensures SortedBy(r, LowerName)
    ensures |r| == |ImageEntries(listing)|
    ensures forall i :: 0 <= i < |r| ==> IsImage(r[i]) && r[i] in listing
  {
    var r := SortBy(ImageEntries(listing), LowerName);
    SameMembers(r, ImageEntries(listing));
    assert forall i :: 0 <= i < |r| ==> r[i] in r;
    r
  }

  /** The lines written for the images, each the image's digest, two spaces and its name. */
  function Listed(images: seq<Sender.Entry>, md5: Md5): (r: seq<string>)
    requires forall e :: e in images ==> e.node.Regular?
    ensures |r| == |images|
  {
    seq(|images|, i requires 0 <= i < |images| =>
          var e := images[i];
          assert e in images;
          FormatLine(md5(e.node.content), e.name))
  }

  /** What `make_manifest` writes and returns: the manifest text and the number of images. */
  datatype Made = Made(text: string, count: nat)

  /** `make_manifest` raises `RuntimeError` when the folder has no image. */
  datatype MakeError = NoImages

  /**
   * `make_manifest(folder)`: an error when the listing has no image, otherwise the
   * manifest, one line per image in `find_images` order ended by a line feed, and
   * the number of images.
   */
  function MakeManifest(listing: seq<Sender.Entry>, md5: Md5): (r: Result<Made, MakeError>)
    ensures r.Failure? <==> forall e :: e in listing ==> !IsImage(e)
    ensures r.Success? ==> r.value.count == |ImageEntries(listing)| > 0
  {
    var images := FindImages(listing);
    if |images| == 0 then Failure(NoImages)
    else
      Success(Made(JoinLines(Listed(images, md5)), |images|))
  }

  /** A name `make_manifest` can write so that `verify_checksum` reads it back: non-empty, trimmed, one line. */
  predicate Listable(name: string)
  {
    |name| > 0 && Trimmed(name) && NoBreak(name)
  }

  /** A line the parser accepts, naming a regular file whose digest is the listed one. */
  predicate Passes(line: string, parse: Parser, folder: Folder, md5: Md5)
  {
    match parse(line)
    case None => false
    case Some(l) => folder(l.name).Regular? && md5(folder(l.name).content) == l.digest
  }

  /** A passing line after the first lines adds one check and no failure. */
  lemma TallyMatched(lines: seq<string>, parse: Parser, folder: Folder, md5: Md5, t: Tally)
    requires |lines| > 0 && TallyLines(lines[..|lines| - 1], parse, folder, md5) == Success(t)
    requires Passes(lines[|lines| - 1], parse, folder, md5)
    ensures TallyLines(lines, parse, folder, md5) == Success(Tally(t.checked + 1, t.failures))
  {
  }

  /** Lines that all pass are all checked, and none fails. */
  lemma {:induction false} TallyAllPass(lines: seq<string>, parse: Parser, folder: Folder, md5: Md5)
    requires forall i :: 0 <= i < |lines| ==> Passes(lines[i], parse, folder, md5)
    ensures TallyLines(lines, parse, folder, md5) == Success(Tally(|lines|, 0))
    decreases |lines|
  {
    if |lines| > 0 {
      var init := lines[..|lines| - 1];
      assert forall i :: 0 <= i < |init| ==> init[i] == lines[i];
      TallyAllPass(init, parse, folder, md5);
      TallyMatched(lines, parse, folder, md5, Tally(|init|, 0));
    }
  }

  /** The lines written for images that are in the folder as listed check without failure. */
  lemma TallyListed(images: seq<Sender.Entry>, folder: Folder, md5: Md5)
    requires forall e :: e in images ==>
               && e.node.Regular?
               && folder(e.name) == e.node
               && Listable(e.name)
               && IsDigest(md5(e.node.content))
    ensures TallyLines(Listed(images, md5), ParseManifest, folder, md5) == Success(Tally(|images|, 0))
  {
    var lines := Listed(images, md5);
    forall k | 0 <= k < |lines|
      ensures Passes(lines[k], ParseManifest, folder, md5)
    {
      var e := images[k];
      assert e in images;
      ParseFormatLine(md5(e.node.content), e.name);
      assert lines[k] == FormatLine(md5(e.node.content), e.name);
    }
    TallyAllPass(lines, ParseManifest, folder, md5);
  }

  /**
   * The manifest `make_manifest` writes for a folder, checked by
   * `verify_checksum` against the same folder, checks every image and finds no
   * failure: provided every image name is non-empty, trimmed and one line, and
   * MD5 gives 32 lower-case hexadecimal digits.
   */
  lemma MakeThenVerify(listing: seq<Sender.Entry>, folder: Folder, md5: Md5)
    requires MakeManifest(listing, md5).Success?
    requires forall e :: e in listing && IsImage(e) ==> folder(e.name) == e.node
    requires forall e :: e in listing && IsImage(e) ==> Listable(e.name) && IsDigest(md5(e.node.content))
    ensures var made := MakeManifest(listing, md5).value;
            VerifyChecksum(Some(made.text), folder, md5) == Success(Tally(made.count, 0))
  {
    var images := FindImages(listing);
    var lines := Listed(images, md5);
    forall k | 0 <= k < |lines|
      ensures NoBreak(lines[k])
    {
      FormatLineNoBreak(md5(images[k].node.content), images[k].name);
    }
    SplitJoinLines(lines);
    TallyListed(images, folder, md5);
    assert MakeManifest(listing, md5).value == Made(JoinLines(lines), |images|);
  }

  /** The entry each image should have in the manifest: its digest and its name, in order. */
  function Digests(images: seq<Sender.Entry>, md5: Md5): (r: seq<Line>)
    requires forall e :: e in images ==> e.node.Regular?
    ensures |r| == |images|
  {
    seq(|images|, i requires 0 <= i < |images| =>
          var e := images[i];
          assert e in images;
          Line(md5(e.node.content), e.name))
  }

  /** Lines that each parse to a given entry read back as exactly those entries, in order. */
  lemma {:induction false} EntriesAllParse(lines: seq<string>, parse: Parser, es: seq<Line>)
    requires |lines| == |es|
    requires forall i :: 0 <= i < |lines| ==> parse(lines[i]) == Some(es[i])
    ensures Entries(lines, parse) == es
    decreases |lines|
  {
    if |lines| > 0 {
      var n := |lines| - 1;
      EntriesAllParse(lines[..n], parse, es[..n]);
      assert es == es[..n] + [es[n]];
    }
  }

  /**
   * The manifest `make_manifest` writes, split into lines and read with the
   * manifest's line parser, lists each image of `find_images` once, in order,
   * with its digest and name: provided every image name is non-empty, trimmed
   * and one line, and MD5 gives 32 lower-case hexadecimal digits.
   */
  lemma MakeManifestLines(listing: seq<Sender.Entry>, md5: Md5)
    requires exists e :: e in listing && IsImage(e)
    requires forall e :: e in listing && IsImage(e) ==> Listable(e.name) && IsDigest(md5(e.node.content))
    ensures var text := MakeManifest(listing, md5).value.text;
            Entries(SplitLines(text), ParseManifest) == Digests(FindImages(listing), md5)
  {
    var images := FindImages(listing);
    var lines := Listed(images, md5);
    var es := Digests(images, md5);
    forall k | 0 <= k < |lines|
      ensures NoBreak(lines[k]) && ParseManifest(lines[k]) == Some(es[k])
    {
      FormatLineNoBreak(md5(images[k].node.content), images[k].name);
      ParseFormatLine(md5(images[k].node.content), images[k].name);
    }
    SplitJoinLines(lines);
    EntriesAllParse(lines, ParseManifest, es);
    assert MakeManifest(listing, md5).value.text == JoinLines(lines);
  }
}
