/**
  Screenshot numbering, shared by `_save_screenshot` in the pipeline class and
  `save_screenshot` in the older script. The files already in the image
  directory are listed, the numeric tags before the first `_` are collected,
  and the new file is called `{tag}_{filename}.{format}` with the tag one more
  than the largest, or 1.
 */
module Screenshots {
  import opened Results
  import opened Text
  import opened Sequences

  /** A directory entry as `Path.iterdir` yields it: its name, and whether it is a regular file. */
  datatype DirEntry = DirEntry(name: string, isFile: bool)

  /** The profile mode the repository ships with (`PROFILE_MODE`). */
  const ProfileMode: string := "info"

  /** The tag a file name carries: the part before the first `_`, read as a number, when it is all digits. */
  function TagOf(name: string): Option<nat> {
    var head := Split(name, "_")[0];
    if Contains(name, "_") && IsDigits(head) then Some(DigitsValue(head)) else None
  }

  /** The tags of the listed names, in listing order. */
  function TagsOf(names: seq<string>): seq<nat> {
    FilterMap(names, TagOf)
  }

  /** `max(tags)` */
  function Max(s: seq<nat>): (m: nat)
    requires s != []
    ensures m in s
    ensures forall x :: x in s ==> x <= m
  {
    if |s| == 1 then s[0]
    else
      var rest := Max(s[1..]);
      assert forall x :: x in s ==> x == s[0] || x in s[1..];
      if s[0] >= rest then s[0] else rest
  }

  /**
    `max(tags) + 1 if tags else 1`: the least positive number above every
    tag, which is 1 or one more than some tag.
   */
  function NextTagOf(tags: seq<nat>): (t: nat)
    ensures t >= 1
    ensures forall x :: x in tags ==> x < t
    ensures t == 1 || t - 1 in tags
  {
    if tags == [] then 1 else Max(tags) + 1
  }

  /** `f"{tag}_{filename}.{image_format}"` */
  function ScreenshotFileName(tag: nat, filename: string, fmt: string): string {
    NatToString(tag) + "_" + filename + "." + fmt
  }

  /** The pipeline's listing test: a regular file whose name ends with `.{fmt}`. */
  function ImageFile(fmt: string): DirEntry -> Option<string> {
    (e: DirEntry) => if e.isFile && EndsWith(e.name, "." + fmt) then Some(e.name) else None
  }

  /** The older script's listing test on `os.listdir` names: the suffix only. */
  function ImageName(fmt: string): string -> Option<string> {
    (n: string) => if EndsWith(n, "." + fmt) then Some(n) else None
  }

  /** The tag the pipeline gives the next screenshot in a directory with these entries. */
  function TagFor(entries: seq<DirEntry>, fmt: string): nat {
    NextTagOf(TagsOf(FilterMap(entries, ImageFile(fmt))))
  }

  /** The name `_save_screenshot` saves under, or None when the profile mode is not "debug". */
  function SavedName(mode: string, entries: seq<DirEntry>, filename: string, fmt: string): Option<string> {
    if mode != "debug" then None
    else Some(ScreenshotFileName(TagFor(entries, fmt), filename, fmt))
  }

  /** The second loop of both revisions: collect the tags of the listed files, then take the next one. */
  method NextTag(existing: seq<string>) returns (tag: nat)
    ensures tag == NextTagOf(TagsOf(existing))
  {
    var tags: seq<nat> := [];
    for i := 0 to |existing|
      invariant tags == FilterMap(existing[..i], TagOf)
    {
      var file := existing[i];
      assert FilterMap(existing[..i + 1], TagOf) == tags + Kept(file, TagOf) by {
        FilterMapSnoc(existing[..i], file, TagOf);
        assert existing[..i + 1] == existing[..i] + [file];
      }
      if Contains(file, "_") && IsDigits(Split(file, "_")[0]) {
        tags := tags + [DigitsValue(Split(file, "_")[0])];
      }
    }
    assert existing[..|existing|] == existing;
    tag := NextTagOf(tags);
  }

  /** `_save_screenshot`: the name the capture is saved under, None when it returns early. */
  method SaveScreenshot(mode: string, entries: seq<DirEntry>, filename: string, fmt: string)
    returns (saved: Option<string>)
    ensures saved == SavedName(mode, entries, filename, fmt)
  {
    if mode != "debug" {
      return None;
    }
    var existing: seq<string> := [];
    for i := 0 to |entries|
      invariant existing == FilterMap(entries[..i], ImageFile(fmt))
    {
      var e := entries[i];
      assert FilterMap(entries[..i + 1], ImageFile(fmt)) == existing + Kept(e, ImageFile(fmt)) by {
        FilterMapSnoc(entries[..i], e, ImageFile(fmt));
        assert entries[..i + 1] == entries[..i] + [e];
      }
      if e.isFile && EndsWith(e.name, "." + fmt) {
        existing := existing + [e.name];
      }
    }
    assert entries[..|entries|] == entries;
    var tag := NextTag(existing);
    saved := Some(ScreenshotFileName(tag, filename, fmt));
  }

  /** A name made of digits, `_` and anything carries the number of those digits as its tag. */
  lemma TagOfDigitsPrefix(d: string, rest: string)
    requires IsDigits(d)
    ensures TagOf(d + "_" + rest) == Some(DigitsValue(d))
  {
    var s := d + "_" + rest;
    assert s[|d|..|d| + 1] == "_";
    assert OccursAt(s, "_", |d|);
    ContainsIff(s, "_");
    SplitFirstPart(s, "_");
    SplitOnceFirst(s, "_");
    var p := SplitOnce(s, "_").value;
    assert s == p.0 + "_" + p.1;
    forall i | 0 <= i < |d| ensures s[i] != '_' {
      assert s[i] == d[i];
    }
    assert s[|p.0|] == '_';
    assert |p.0| == |d|;
    assert p.0 == s[..|d|] == d;
  }

  /** The saved name carries its tag and ends with the image suffix, so the next listing counts it. */
  lemma FileNameCarriesTag(tag: nat, filename: string, fmt: string)
    ensures TagOf(ScreenshotFileName(tag, filename, fmt)) == Some(tag)
    ensures EndsWith(ScreenshotFileName(tag, filename, fmt), "." + fmt)
  {
    var name := ScreenshotFileName(tag, filename, fmt);
    assert name == NatToString(tag) + "_" + (filename + "." + fmt);
    TagOfDigitsPrefix(NatToString(tag), filename + "." + fmt);
    DigitsValueOfNatToString(tag);
    assert name[|name| - |"." + fmt|..] == "." + fmt;
  }

  /**
    Nothing is saved unless the mode is "debug"; otherwise the name is
    `{tag}_{filename}.{fmt}` and carries the tag of the directory, which is
    above the tag of every counted image file in it.
   */
  lemma SavedNameShape(mode: string, entries: seq<DirEntry>, filename: string, fmt: string)
    ensures SavedName(mode, entries, filename, fmt).Some? <==> mode == "debug"
    ensures mode == "debug" ==>
      && SavedName(mode, entries, filename, fmt).value == NatToString(TagFor(entries, fmt)) + "_" + filename + "." + fmt
      && TagOf(SavedName(mode, entries, filename, fmt).value) == Some(TagFor(entries, fmt))
      && EndsWith(SavedName(mode, entries, filename, fmt).value, "." + fmt)
  {
    FileNameCarriesTag(TagFor(entries, fmt), filename, fmt);
  }

  /** With the shipped profile mode, no screenshot is ever saved. */
  lemma ShippedModeSavesNothing(entries: seq<DirEntry>, filename: string, fmt: string)
    ensures SavedName(ProfileMode, entries, filename, fmt) == None
  {
    assert ProfileMode[0] == 'i';
  }

  /** The new tag is above the tag of every regular file that has the image suffix. */
  lemma {:induction false} TagForAbove(entries: seq<DirEntry>, fmt: string, k: nat)
    requires k < |entries|
    requires entries[k].isFile && EndsWith(entries[k].name, "." + fmt)
    requires TagOf(entries[k].name).Some?
    ensures TagOf(entries[k].name).value < TagFor(entries, fmt)
  {
    var images := FilterMap(entries, ImageFile(fmt));
    FilterMapMember(entries, ImageFile(fmt), entries[k].name);
    assert entries[k].name in images;
    var j :| 0 <= j < |images| && images[j] == entries[k].name;
    FilterMapMember(images, TagOf, TagOf(entries[k].name).value);
    assert TagOf(images[j]) == Some(TagOf(entries[k].name).value);
  }

  /** Saving one more image under the computed name moves the tag on by exactly one. */
  lemma NextAfterSave(names: seq<string>, filename: string, fmt: string)
    ensures NextTagOf(TagsOf(names + [ScreenshotFileName(NextTagOf(TagsOf(names)), filename, fmt)]))
         == NextTagOf(TagsOf(names)) + 1
  {
    var tag := NextTagOf(TagsOf(names));
    var name := ScreenshotFileName(tag, filename, fmt);
    FileNameCarriesTag(tag, filename, fmt);
    FilterMapSnoc(names, name, TagOf);
    var after := TagsOf(names + [name]);
    assert after == TagsOf(names) + [tag];
    var t := NextTagOf(after);
    assert tag in after;
  }

  /**
    An entry that is not a regular file, lacks the image suffix, or carries
    no tag (no `_`, or a non-digit first part) does not change the tag.
   */
  lemma UncountedEntry(a: seq<DirEntry>, e: DirEntry, b: seq<DirEntry>, fmt: string)
    requires !e.isFile || !EndsWith(e.name, "." + fmt) || TagOf(e.name).None?
    ensures TagFor(a + [e] + b, fmt) == TagFor(a + b, fmt)
  {
    if ImageFile(fmt)(e).None? {
      FilterMapSkip(a, e, b, ImageFile(fmt));
      FilterMapConcat(a, b, ImageFile(fmt));
    } else {
      var fa, fb := FilterMap(a, ImageFile(fmt)), FilterMap(b, ImageFile(fmt));
      FilterMapConcat(a + [e], b, ImageFile(fmt));
      FilterMapSnoc(a, e, ImageFile(fmt));
      FilterMapConcat(a, b, ImageFile(fmt));
      assert FilterMap(a + [e] + b, ImageFile(fmt)) == fa + [e.name] + fb;
      FilterMapSkip(fa, e.name, fb, TagOf);
      FilterMapConcat(fa, fb, TagOf);
    }
  }

  /** The older script lists names only; the corresponding irrelevance for its suffix test. */
  lemma UncountedName(a: seq<string>, n: string, b: seq<string>, fmt: string)
    requires !EndsWith(n, "." + fmt) || TagOf(n).None?
    ensures TagsOf(FilterMap(a + [n] + b, ImageName(fmt))) == TagsOf(FilterMap(a + b, ImageName(fmt)))
  {
    if ImageName(fmt)(n).None? {
      FilterMapSkip(a, n, b, ImageName(fmt));
      FilterMapConcat(a, b, ImageName(fmt));
    } else {
      var fa, fb := FilterMap(a, ImageName(fmt)), FilterMap(b, ImageName(fmt));
      FilterMapConcat(a + [n], b, ImageName(fmt));
      FilterMapSnoc(a, n, ImageName(fmt));
      FilterMapConcat(a, b, ImageName(fmt));
      assert FilterMap(a + [n] + b, ImageName(fmt)) == fa + [n] + fb;
      FilterMapSkip(fa, n, fb, TagOf);
      FilterMapConcat(fa, fb, TagOf);
    }
  }
}
