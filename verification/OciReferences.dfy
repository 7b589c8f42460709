/**
 The parts of an OCI image reference, `<registry>/<repository>[:<tag>][@<digest>]`. The digest
 follows the first `@`; the tag follows the first `:` of the last path segment before it, so that a
 registry port is not taken for a tag.
 */
module OciReferences {
  import opened Wrappers
  import opened Text

  datatype Reference = Reference(registry: string, repository: string, tag: Option<string>, digest: Option<string>)

  function CutDigest(image: string): (string, Option<string>) {
    match CutFirst(image, '@')
    case None => (image, None)
    case Some((name, digest)) => (name, Some(digest))
  }

  /** The directory, with its slash, and the last segment of a path. */
  function CutSegment(name: string): (r: (string, string))
    ensures name == r.0 + r.1
  {
    match CutLast(name, '/')
    case None => ("", name)
    case Some((dir, last)) => (dir + "/", last)
  }

  function CutTag(name: string): (string, Option<string>) {
    var (dir, last) := CutSegment(name);
    match CutFirst(last, ':')
    case None => (name, None)
    case Some((repo, tag)) => (dir + repo, Some(tag))
  }

  function Parse(image: string): Option<Reference> {
    var (name, digest) := CutDigest(image);
    var (path, tag) := CutTag(name);
    match CutFirst(path, '/')
    case None => None
    case Some((registry, repository)) => Some(Reference(registry, repository, tag, digest))
  }

  function Print(r: Reference): string {
    r.registry + "/" + r.repository
    + (match r.tag case None => "" case Some(t) => ":" + t)
    + (match r.digest case None => "" case Some(d) => "@" + d)
  }

  lemma CutTagLossless(name: string)
    ensures var (path, tag) := CutTag(name);
            name == path + (match tag case None => "" case Some(t) => ":" + t)
  {
    var (dir, last) := CutSegment(name);
    if CutFirst(last, ':').Some? {
      var (repo, tag) := CutFirst(last, ':').value;
      assert dir + (repo + [':'] + tag) == (dir + repo) + (":" + tag);
    }
  }

  /** Reading a reference loses nothing of it. */
  lemma ParseLossless(image: string)
    requires Parse(image).Some?
    ensures Print(Parse(image).value) == image
  {
    var (name, digest) := CutDigest(image);
    var (path, tag) := CutTag(name);
    var suffix := match digest case None => "" case Some(d) => "@" + d;
    assert image == name + suffix by {
      if digest.Some? {
        ConcatAssociative(name, "@", digest.value);
      }
    }
    CutTagLossless(name);
    var (registry, repository) := CutFirst(path, '/').value;
    assert path == registry + "/" + repository;
  }

  /** What pins the content: the tag and the digest. */
  function PinOf(image: string): (Option<string>, Option<string>) {
    var (name, digest) := CutDigest(image);
    (CutTag(name).1, digest)
  }

  /** A path of whole segments, such as `ghcr.io/mcpg-dev/`. */
  predicate IsDirectory(head: string) {
    head != "" && head[|head| - 1] == '/'
  }

  lemma CutDigestUnder(head: string, rest: string)
    requires '@' !in head
    ensures CutDigest(head + rest) == (head + CutDigest(rest).0, CutDigest(rest).1)
  {
    match CutFirst(rest, '@')
    case None =>
    case Some((name, digest)) =>
      assert head + rest == (head + name) + ['@'] + digest;
      CutFirstAt(head + name, '@', digest);
  }

  lemma CutSegmentUnder(head: string, rest: string)
    requires IsDirectory(head)
    ensures CutSegment(head + rest) == (head + CutSegment(rest).0, CutSegment(rest).1)
  {
    match CutLast(rest, '/')
    case None =>
      var h := head[..|head| - 1];
      assert head == h + ['/'];
      CutLastAt(h, '/', rest);
      assert head + "" == head;
    case Some((dir, last)) =>
      assert head + rest == (head + dir) + ['/'] + last;
      CutLastAt(head + dir, '/', last);
      assert head + dir + "/" == head + (dir + "/");
  }

  lemma CutTagUnder(head: string, rest: string)
    requires IsDirectory(head)
    ensures CutTag(head + rest) == (head + CutTag(rest).0, CutTag(rest).1)
  {
    CutSegmentUnder(head, rest);
    var (dir, last) := CutSegment(rest);
    match CutFirst(last, ':')
    case None =>
    case Some((repo, tag)) =>
      ConcatAssociative(head, dir, repo);
  }

  /** Under a directory without `@`, the pin is that of the rest. */
  lemma PinUnder(head: string, rest: string)
    requires IsDirectory(head) && '@' !in head
    ensures PinOf(head + rest) == PinOf(rest)
  {
    CutDigestUnder(head, rest);
    CutTagUnder(head, CutDigest(rest).0);
  }

  lemma PinOfDirectory(head: string)
    requires IsDirectory(head) && '@' !in head
    ensures PinOf(head) == (None, None)
  {
  }

  /** Once a `@` occurs in the head, everything after it reads as the digest. */
  lemma PinUnderDigest(head: string, rest: string)
    requires '@' in head
    ensures PinOf(head).1.Some?
    ensures PinOf(head + rest) == (PinOf(head).0, Some(PinOf(head).1.value + rest))
  {
    var (name, digest) := CutFirst(head, '@').value;
    assert head + rest == name + ['@'] + (digest + rest);
    CutFirstAt(name, '@', digest + rest);
  }

  lemma DigestShorter(image: string)
    ensures PinOf(image).1.Some? ==> |PinOf(image).1.value| < |image|
  {
  }

  /** No `:` stands in the last segment. */
  ghost predicate LastSegmentPlain(path: string) {
    forall i | 0 <= i < |path| && path[i] == ':' :: exists j :: i < j < |path| && path[j] == '/'
  }

  /** What can be told apart again: a tag has no slash, and no `@` stands before the digest. */
  ghost predicate IsSeparable(r: Reference) {
    && '/' !in r.registry && '@' !in r.registry
    && '@' !in r.repository && LastSegmentPlain(r.repository)
    && (r.tag.Some? ==> '/' !in r.tag.value && '@' !in r.tag.value)
  }

  lemma PlainWithoutColon(dir: string, last: string)
    requires dir == "" || IsDirectory(dir)
    requires ':' !in last
    ensures LastSegmentPlain(dir + last)
  {
    var path, n := dir + last, |dir|;
    assert forall i | n <= i < |path| :: path[i] == last[i - n] && path[i] != ':';
    forall i | 0 <= i < |path| && path[i] == ':' ensures exists j :: i < j < |path| && path[j] == '/' {
      assert path[n - 1] == dir[n - 1] == '/';
    }
  }

  lemma ColonIsNotPlain(dir: string, last: string)
    requires '/' !in last && ':' in last
    ensures !LastSegmentPlain(dir + last)
  {
    var path, n := dir + last, |dir|;
    var k :| 0 <= k < |last| && last[k] == ':';
    assert path[n + k] == ':';
    assert forall j | n <= j < |path| :: path[j] == last[j - n] && path[j] != '/';
  }

  lemma CutSegmentMeaning(path: string)
    ensures LastSegmentPlain(path) <==> ':' !in CutSegment(path).1
    ensures '/' !in CutSegment(path).1
    ensures CutSegment(path).0 == "" || IsDirectory(CutSegment(path).0)
  {
    var (dir, last) := CutSegment(path);
    if ':' in last {
      ColonIsNotPlain(dir, last);
    } else {
      PlainWithoutColon(dir, last);
    }
  }

  lemma SegmentExtended(path: string, suffix: string)
    requires '/' !in suffix
    ensures CutSegment(path + suffix) == (CutSegment(path).0, CutSegment(path).1 + suffix)
  {
    match CutLast(path, '/')
    case None =>
    case Some((dir, last)) =>
      assert path + suffix == dir + ['/'] + (last + suffix);
      CutLastAt(dir, '/', last + suffix);
  }

  /** A tag, if any, is what follows the first `:` of the last segment. */
  lemma CutTagPrinted(path: string, tag: Option<string>)
    requires LastSegmentPlain(path)
    requires tag.Some? ==> '/' !in tag.value
    ensures CutTag(path + (match tag case None => "" case Some(t) => ":" + t)) == (path, tag)
  {
    CutSegmentMeaning(path);
    var (dir, last) := CutSegment(path);
    var suffix := match tag case None => "" case Some(t) => ":" + t;
    assert path + suffix == dir + (last + suffix);
    assert CutSegment(path + suffix) == (dir, last + suffix) by {
      SegmentExtended(path, suffix);
    }
    if tag.Some? {
      CutFirstAt(last, ':', tag.value);
      assert last + suffix == last + [':'] + tag.value;
    } else {
      assert path + "" == path && last + "" == last;
    }
  }

  lemma CutDigestPrinted(name: string, digest: Option<string>)
    requires '@' !in name
    ensures CutDigest(name + (match digest case None => "" case Some(d) => "@" + d)) == (name, digest)
  {
    match digest
    case None =>
      assert name + "" == name;
    case Some(d) =>
      CutFirstAt(name, '@', d);
      assert name + ("@" + d) == name + ['@'] + d;
  }

  lemma LastSegmentUnder(registry: string, repository: string)
    ensures LastSegmentPlain(registry + "/" + repository) <==> LastSegmentPlain(repository)
  {
    var path, n := registry + "/" + repository, |registry| + 1;
    assert forall i | 0 <= i < |repository| :: path[n + i] == repository[i];
    assert path[|registry|] == '/';
    if LastSegmentPlain(repository) {
      forall i | 0 <= i < |path| && path[i] == ':' ensures exists j :: i < j < |path| && path[j] == '/' {
        if n <= i {
          assert repository[i - n] == ':';
          var j :| i - n < j < |repository| && repository[j] == '/';
          assert path[n + j] == '/';
        }
      }
    }
    if LastSegmentPlain(path) {
      forall i | 0 <= i < |repository| && repository[i] == ':'
        ensures exists j :: i < j < |repository| && repository[j] == '/'
      {
        var j :| n + i < j < |path| && path[j] == '/';
        assert repository[j - n] == '/';
      }
    }
  }

  /** Tag and digest of a reference written out, with a registry that may carry a port. */
  lemma PinOfPrinted(r: Reference)
    requires IsSeparable(r)
    ensures Parse(Print(r)) == Some(r)
    ensures PinOf(Print(r)) == (r.tag, r.digest)
  {
    var path := r.registry + "/" + r.repository;
    var name := path + (match r.tag case None => "" case Some(t) => ":" + t);
    LastSegmentUnder(r.registry, r.repository);
    CutTagPrinted(path, r.tag);
    CutDigestPrinted(name, r.digest);
    CutFirstAt(r.registry, '/', r.repository);
  }

  lemma TailMembers(head: string, tail: string, c: char)
    requires c !in head + tail
    ensures c !in tail
  {
    assert forall i | 0 <= i < |tail| :: tail[i] == (head + tail)[|head| + i];
  }

  lemma TagMembers(name: string)
    requires '@' !in name && CutTag(name).1.Some?
    ensures '/' !in CutTag(name).1.value && '@' !in CutTag(name).1.value
  {
    CutSegmentMeaning(name);
    var (dir, last) := CutSegment(name);
    var (repo, tag) := CutFirst(last, ':').value;
    TailMembers(dir, last, '@');
    TailMembers(repo + [':'], tag, '@');
    TailMembers(repo + [':'], tag, '/');
  }

  lemma PathPlain(name: string)
    ensures LastSegmentPlain(CutTag(name).0)
  {
    CutSegmentMeaning(name);
    var (dir, last) := CutSegment(name);
    match CutFirst(last, ':')
    case None =>
    case Some((repo, tag)) =>
      PlainWithoutColon(dir, repo);
  }

  lemma ParsedIsSeparable(image: string)
    requires Parse(image).Some?
    ensures IsSeparable(Parse(image).value)
  {
    var name := CutDigest(image).0;
    var (path, tag) := CutTag(name);
    var r := Parse(image).value;
    CutTagLossless(name);
    assert '@' !in path by {
      assert forall i | 0 <= i < |path| :: path[i] == name[i];
    }
    assert path == r.registry + "/" + r.repository;
    if tag.Some? {
      TagMembers(name);
    }
    PathPlain(name);
    LastSegmentUnder(r.registry, r.repository);
    TailMembers(r.registry + "/", r.repository, '@');
    assert forall i | 0 <= i < |r.registry| :: r.registry[i] == path[i];
  }

  /** The reader accepts exactly the printed references whose parts can be told apart, and returns them. */
  lemma ParseIff(image: string, r: Reference)
    ensures Parse(image) == Some(r) <==> image == Print(r) && IsSeparable(r)
  {
    if Parse(image) == Some(r) {
      ParseLossless(image);
      ParsedIsSeparable(image);
    }
    if image == Print(r) && IsSeparable(r) {
      PinOfPrinted(r);
    }
  }

  lemma AppendOptional(head: string, mark: string, part: Option<string>)
    ensures head + (match part case None => "" case Some(p) => mark + p)
         == match part case None => head case Some(p) => head + mark + p
  {
    if part.Some? {
      ConcatAssociative(head, mark, part.value);
    }
  }

  lemma PinTextOf(registry: string, repository: string, tag: Option<string>, digest: Option<string>)
    requires IsSeparable(Reference(registry, repository, tag, digest))
    ensures var path := registry + "/" + repository;
            var name := match tag case None => path case Some(t) => path + ":" + t;
            PinOf(match digest case None => name case Some(d) => name + "@" + d) == (tag, digest)
  {
    var path := registry + "/" + repository;
    var name := match tag case None => path case Some(t) => path + ":" + t;
    PinOfPrinted(Reference(registry, repository, tag, digest));
    AppendOptional(path, ":", tag);
    AppendOptional(name, "@", digest);
  }

  /** The forms of a reference, written out. */
  lemma PinText(registry: string, repository: string, tag: string, digest: string)
    requires IsSeparable(Reference(registry, repository, Some(tag), Some(digest)))
    ensures PinOf(registry + "/" + repository) == (None, None)
    ensures PinOf(registry + "/" + repository + ":" + tag) == (Some(tag), None)
    ensures PinOf(registry + "/" + repository + "@" + digest) == (None, Some(digest))
    ensures PinOf(registry + "/" + repository + ":" + tag + "@" + digest) == (Some(tag), Some(digest))
  {
    PinTextOf(registry, repository, None, None);
    PinTextOf(registry, repository, Some(tag), None);
    PinTextOf(registry, repository, None, Some(digest));
    PinTextOf(registry, repository, Some(tag), Some(digest));
  }

  /** What is before the tag and digest never holds a `@`. */
  lemma PathHasNoDigest(image: string)
    requires Parse(image).Some?
    ensures '@' !in Parse(image).value.registry + "/" + Parse(image).value.repository
  {
    var name := CutDigest(image).0;
    CutTagLossless(name);
    assert '@' !in name;
    assert forall i | 0 <= i < |CutTag(name).0| :: CutTag(name).0[i] == name[i];
  }

  /** Under a directory with a first segment, the reader finds registry and repository, tag and digest. */
  lemma ReferenceUnder(head: string, rest: string)
    requires IsDirectory(head) && '@' !in head
    ensures Parse(head + rest).Some?
    ensures var r := Parse(head + rest).value;
            && r.registry + "/" + r.repository == head + CutTag(CutDigest(rest).0).0
            && '/' !in r.registry
            && (r.tag, r.digest) == PinOf(rest)
  {
    CutDigestUnder(head, rest);
    var name := CutDigest(rest).0;
    CutTagUnder(head, name);
    assert (head + CutTag(name).0)[|head| - 1] == '/';
  }

  /** The first segment of a path, told apart from the rest, is the registry exactly when it has no slash. */
  lemma FirstSegmentIff(registry: string, repository: string, head: string, rest: string)
    requires '/' !in registry && registry + "/" + repository == head + "/" + rest
    ensures registry == head <==> '/' !in head
  {
    CutFirstAt(registry, '/', repository);
    if '/' !in head {
      CutFirstAt(head, '/', rest);
    }
  }
}
