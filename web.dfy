/** `wrapper/web.py`: completing the links and image sources found on a web
    page, sorting the images of a page into priority buckets while the HTML
    is read, choosing the image to show, and building an image entry from an
    `img` tag. Parsing a URL into its components and writing the components
    back out (`urlparse`, `geturl`) are parameters of the model. */
module Web {
  import opened Wrappers
  import opened Strings
  import opened Base

  /** The six components `urlparse` returns. */
  datatype Url = Url(scheme: string, netloc: string, path: string, params: string, query: string, fragment: string)

  // ---------------------------------------------------------------------------
  // The base path of a page

  /** Index of the first `c` in `s`, or `|s|`. */
  function FirstIndex(s: string, c: char): (i: nat)
    ensures i <= |s| && (i < |s| ==> s[i] == c)
    ensures forall k :: 0 <= k < i ==> s[k] != c
  {
    if s == [] || s[0] == c then 0 else 1 + FirstIndex(s[1..], c)
  }

  /** `s.split(c)`: never empty; empty pieces are kept. */
  function SplitOn(s: string, c: char): (r: seq<string>)
    ensures |r| >= 1
    decreases |s|
  {
    var i := FirstIndex(s, c);
    if i == |s| then [s] else [s[..i]] + SplitOn(s[i + 1..], c)
  }

  /** The non-empty strings of `parts`, in order (the `if p` filter). */
  function NonEmpty(parts: seq<string>): (r: seq<string>)
    ensures forall k :: 0 <= k < |r| ==> r[k] != []
  {
    if parts == [] then []
    else (if parts[0] == [] then [] else [parts[0]]) + NonEmpty(parts[1..])
  }

  /** The directory of a page's path: `'/%s/' % part`, where `part` joins the
      non-empty segments before the last one with `/`, or `'/'` when there
      are none. */
  function BasePath(path: string): string
  {
    var segments := SplitOn(path, '/');
    var part := Join("/", NonEmpty(segments[..|segments| - 1]));
    if part == [] then "/" else "/" + part + "/"
  }

  /** A base path starts and ends with `/`. */
  lemma BasePathSlashes(path: string)
    ensures |BasePath(path)| >= 1 && BasePath(path)[0] == '/' && BasePath(path)[|BasePath(path)| - 1] == '/'
  {
  }

  predicate IsSegment(d: string)
  {
    d != [] && '/' !in d
  }

  /** Splitting at the separator undoes joining with it. */
  lemma {:induction false} SplitJoin(parts: seq<string>)
    requires |parts| >= 1 && Slashless(parts)
    ensures SplitOn(Join("/", parts), '/') == parts
  {
    if |parts| > 1 {
      var s := Join("/", parts);
      var first, rest := parts[0], Join("/", parts[1..]);
      assert s == first + "/" + rest;
      FirstIndexAt(first, rest);
      assert s[..|first|] == first;
      assert s[|first| + 1..] == rest;
      SplitJoin(parts[1..]);
      assert parts == [first] + parts[1..];
    } else {
      assert Join("/", parts) == parts[0];
      FirstIndexNone(parts[0], '/');
    }
  }

  lemma FirstIndexAt(first: string, rest: string)
    requires '/' !in first
    ensures FirstIndex(first + "/" + rest, '/') == |first|
  {
    var s := first + "/" + rest;
    assert s[|first|] == '/';
    assert forall k :: 0 <= k < |first| ==> s[k] == first[k];
    FirstIndexIs(s, '/', |first|);
  }

  lemma {:induction false} FirstIndexIs(s: string, c: char, i: nat)
    requires i < |s| && s[i] == c && forall k :: 0 <= k < i ==> s[k] != c
    ensures FirstIndex(s, c) == i
  {
    if i > 0 {
      FirstIndexIs(s[1..], c, i - 1);
    }
  }

  lemma {:induction false} FirstIndexNone(s: string, c: char)
    requires c !in s
    ensures FirstIndex(s, c) == |s|
  {
    if s != [] {
      FirstIndexNone(s[1..], c);
    }
  }

  lemma {:induction false} NonEmptyKeeps(parts: seq<string>)
    requires forall k :: 0 <= k < |parts| ==> parts[k] != []
    ensures NonEmpty(parts) == parts
  {
    if parts != [] {
      NonEmptyKeeps(parts[1..]);
      assert parts == [parts[0]] + parts[1..];
    }
  }

  lemma {:induction false} JoinEmpty(parts: seq<string>)
    requires forall k :: 0 <= k < |parts| ==> parts[k] != []
    ensures Join("/", parts) == [] <==> parts == []
  {
    if |parts| > 1 {
      JoinEmpty(parts[1..]);
    }
  }

  /** The segments of `/d1/.../dn/name` are an empty one, the directories
      and the name. */
  lemma PageSegments(dirs: seq<string>, name: string)
    requires forall k :: 0 <= k < |dirs| ==> IsSegment(dirs[k])
    requires '/' !in name
    ensures SplitOn("/" + Join("/", dirs + [name]), '/') == [[]] + dirs + [name]
  {
    var rest := dirs + [name];
    NoSlashIn(dirs, name);
    var parts := [[]] + rest;
    SlashlessCons(rest);
    JoinCons(rest);
    SplitJoin(parts);
    Assoc([[]], dirs, [name]);
  }

  /** No string of `parts` holds a `/`. */
  predicate Slashless(parts: seq<string>)
  {
    forall k :: 0 <= k < |parts| ==> '/' !in parts[k]
  }

  lemma SlashlessCons(parts: seq<string>)
    requires Slashless(parts)
    ensures Slashless([[]] + parts)
  {
    var p := [[]] + parts;
    forall k | 0 <= k < |p|
      ensures '/' !in p[k]
    {
      if k > 0 {
        assert p[k] == parts[k - 1];
      }
    }
  }

  lemma NoSlashIn(dirs: seq<string>, name: string)
    requires forall k :: 0 <= k < |dirs| ==> IsSegment(dirs[k])
    requires '/' !in name
    ensures Slashless(dirs + [name])
  {
    forall k | 0 <= k < |dirs + [name]|
      ensures '/' !in (dirs + [name])[k]
    {
      if k < |dirs| {
        assert (dirs + [name])[k] == dirs[k];
      }
    }
  }

  /** The base path of `/d1/.../dn/name` is `/d1/.../dn/`, and `/` when
      there is no directory. */
  lemma BasePathOfPage(dirs: seq<string>, name: string)
    requires forall k :: 0 <= k < |dirs| ==> IsSegment(dirs[k])
    requires '/' !in name
    ensures BasePath("/" + Join("/", dirs + [name])) == if dirs == [] then "/" else "/" + Join("/", dirs) + "/"
  {
    var segments := SplitOn("/" + Join("/", dirs + [name]), '/');
    PageSegments(dirs, name);
    assert segments[..|segments| - 1] == [[]] + dirs;
    assert NonEmpty([[]] + dirs) == dirs by {
      assert ([[]] + dirs)[1..] == dirs;
      NonEmptyKeeps(dirs);
    }
    JoinEmpty(dirs);
  }

  lemma JoinCons(parts: seq<string>)
    requires parts != []
    ensures Join("/", [[]] + parts) == "/" + Join("/", parts)
  {
    assert ([[]] + parts)[1..] == parts;
  }

  // ---------------------------------------------------------------------------
  // _fullpath

  /** The components of `url` completed from the page it was found on: a
      missing scheme or netloc is the page's, and when the netloc is the
      page's a relative path is put under the page's base path. */
  function Resolve(purl: Url, page: Url, base: string): Url
  {
    var scheme := if purl.scheme == [] then page.scheme else purl.scheme;
    if purl.netloc != [] then purl.(scheme := scheme)
    else
      var path := if purl.path == [] || purl.path[0] != '/' then base + purl.path else purl.path;
      purl.(scheme := scheme, netloc := page.netloc, path := path)
  }

  predicate Absolute(path: string)
  {
    path != [] && path[0] == '/'
  }

  /** What completing keeps, borrows and rewrites. */
  lemma ResolveFields(purl: Url, page: Url, base: string)
    ensures var r := Resolve(purl, page, base);
      && r.scheme == (if purl.scheme == [] then page.scheme else purl.scheme)
      && r.netloc == (if purl.netloc == [] then page.netloc else purl.netloc)
      && r.params == purl.params && r.query == purl.query && r.fragment == purl.fragment
      && (purl.netloc != [] || Absolute(purl.path) ==> r.path == purl.path)
      && (purl.netloc == [] && !Absolute(purl.path) ==> r.path == base + purl.path)
  {
  }

  /** Completing against the same page twice gives what completing once
      gives, as long as the base path is absolute. */
  lemma ResolveTwice(purl: Url, page: Url, base: string)
    requires Absolute(base)
    ensures Resolve(Resolve(purl, page, base), page, base) == Resolve(purl, page, base)
  {
  }

  /** A URL without its own netloc ends up with an absolute path. */
  lemma ResolvedPathAbsolute(purl: Url, page: Url, base: string)
    requires Absolute(base) && purl.netloc == []
    ensures Absolute(Resolve(purl, page, base).path)
  {
  }

  /** `WebWrapper._fullpath(url, parent_url)` */
  function WebFullPath(parse: string -> Url, unparse: Url -> string, url: string, parentUrl: string): string
  {
    if url == [] then []
    else
      var parent := parse(parentUrl);
      unparse(Resolve(parse(url), parent, BasePath(parent.path)))
  }

  /** An empty url stays empty; any other is completed against the parent's
      components and its base path. */
  lemma WebFullPathCases(parse: string -> Url, unparse: Url -> string, url: string, parentUrl: string)
    ensures url == [] ==> WebFullPath(parse, unparse, url, parentUrl) == []
    ensures url != [] ==> exists r: Url ::
      WebFullPath(parse, unparse, url, parentUrl) == unparse(r) &&
      r.netloc == (if parse(url).netloc == [] then parse(parentUrl).netloc else parse(url).netloc) &&
      (parse(url).netloc == [] ==> Absolute(r.path))
  {
    if url != [] {
      var parent := parse(parentUrl);
      var base := BasePath(parent.path);
      BasePathSlashes(parent.path);
      var r := Resolve(parse(url), parent, base);
      if parse(url).netloc == [] {
        ResolvedPathAbsolute(parse(url), parent, base);
      }
      assert WebFullPath(parse, unparse, url, parentUrl) == unparse(r);
    }
  }

  // ---------------------------------------------------------------------------
  // WebImage

  /** What `find_image` and `_builditem` return: the image to show, the
      addresses it can also be fetched from, the page it is on, the page to
      go to next, and the name it is saved under. */
  datatype WebImage = WebImage(imageUrl: string, altUrls: seq<string>, pageUrl: string, nextPage: Option<string>, filename: string)

  /** The last component of `p`, as `os.path.split(p)[1]` gives it. */
  function Basename(p: string): (r: string)
    ensures '/' !in r && EndsWith(p, r)
    ensures |r| < |p| ==> p[|p| - |r| - 1] == '/'
  {
    var sep := RFind(p, '/');
    TailAfter(p, sep);
    p[sep + 1..]
  }

  lemma TailAfter(p: string, sep: int)
    requires -1 <= sep < |p| && (sep >= 0 ==> p[sep] == '/')
    requires forall i :: sep < i < |p| ==> p[i] != '/'
    ensures '/' !in p[sep + 1..] && EndsWith(p, p[sep + 1..])
  {
    var tail := p[sep + 1..];
    forall i | 0 <= i < |tail|
      ensures tail[i] != '/'
    {
      assert tail[i] == p[sep + 1 + i];
    }
  }

  /** `WebImage(alt_urls, page_url, next_page)`: an error (the `IndexError`)
      when there is no address. */
  function NewWebImage(altUrls: seq<string>, pageUrl: string, nextPage: Option<string>): (r: Result<WebImage, string>)
    ensures r.Ok? <==> altUrls != []
    ensures r.Ok? ==> (r.value.imageUrl == altUrls[0] && r.value.altUrls == altUrls
      && r.value.pageUrl == pageUrl && r.value.nextPage == nextPage)
    ensures r.Ok? ==> var f := r.value.filename;
      f == altUrls[0] || (f != [] && '/' !in f && EndsWith(altUrls[0], f))
  {
    if altUrls == [] then Err("list index out of range")
    else
      var name := Basename(altUrls[0]);
      Ok(WebImage(altUrls[0], altUrls, pageUrl, nextPage, if name == [] then altUrls[0] else name))
  }

  /** The saved name is the last component of the address unless the
      address ends with `/`, and then it is the whole address. */
  lemma WebImageFilename(altUrls: seq<string>, pageUrl: string, nextPage: Option<string>)
    requires altUrls != []
    ensures var f := NewWebImage(altUrls, pageUrl, nextPage).value.filename;
      if altUrls[0] != [] && altUrls[0][|altUrls[0]| - 1] != '/' then f == Basename(altUrls[0]) && f != []
      else f == altUrls[0]
  {
    var u := altUrls[0];
    if u != [] && u[|u| - 1] != '/' {
      assert u[|u| - 1] != '/';
      assert RFind(u, '/') < |u| - 1;
    }
  }

  // ---------------------------------------------------------------------------
  // ImageParser

  /** An image source found on the page, and the link that was open when it
      was found. */
  datatype Candidate = Candidate(src: string, link: Option<string>)

  /** `ImageParser.minlength` */
  const MinLength := 50000

  /** `ImageParser.filtered` */
  const Filtered: set<string> := {".gif"}

  /** The number of priority buckets, `len(self.imgs_lists)`. */
  const BucketCount := 8

  /** `dict(attrs).get(key)`: the value of the last pair with that name. */
  function Lookup(attrs: seq<(string, string)>, key: string): (r: Option<string>)
    ensures r.None? <==> forall i :: 0 <= i < |attrs| ==> attrs[i].0 != key
    ensures r.Some? ==> exists i :: (0 <= i < |attrs| && attrs[i] == (key, r.value)
      && forall j :: i < j < |attrs| ==> attrs[j].0 != key)
  {
    if attrs == [] then None
    else if attrs[|attrs| - 1].0 == key then Some(attrs[|attrs| - 1].1)
    else Lookup(attrs[..|attrs| - 1], key)
  }

  /** `not self.saved_link` */
  predicate NoLink(link: Option<string>)
  {
    link == None || link == Some([])
  }

  /** `unknown_ext*4 + (not self.saved_link)*2 + filtered`: each of the
      three flags can be read back off the bucket number. */
  function Priority(unknown: bool, noLink: bool, filtered: bool): (p: nat)
    ensures p < BucketCount
    ensures (p >= 4 <==> unknown) && (p % 4 >= 2 <==> noLink) && (p % 2 == 1 <==> filtered)
  {
    (if unknown then 4 else 0) + (if noLink then 2 else 0) + (if filtered then 1 else 0)
  }

  /** The two pieces of state an `ImageParser` changes while it reads a page. */
  datatype ParserState = ParserState(savedLink: Option<string>, buckets: seq<seq<Candidate>>)

  /** A tag the HTML parser reports. */
  datatype Event = StartTag(tag: string, attrs: seq<(string, string)>) | EndTag(tag: string)

  /** Bucket `k` of `after` starts with bucket `k` of `before`. */
  predicate Grown(before: seq<seq<Candidate>>, after: seq<seq<Candidate>>)
  {
    |before| == |after| && forall k :: 0 <= k < |before| ==> before[k] <= after[k]
  }

  /** The best image so far in `find_image`, and its size. */
  datatype Best = Best(pick: Option<Candidate>, max: int)

  /** Nothing picked yet: `image_url = None`, `maxsize = -1`. */
  const NoBest := Best(None, -1)

  /** Reading one bucket: a candidate is picked when it is strictly larger
      than the best so far. */
  function ScanList(l: seq<Candidate>, size: string -> int, b: Best): Best
  {
    if l == [] then b
    else
      var s := size(l[0].src);
      ScanList(l[1..], size, if b.max < s then Best(Some(l[0]), s) else b)
  }

  /** Reading the buckets in order, stopping after the first bucket that
      leaves the best size above `MinLength`. */
  function Scan(bs: seq<seq<Candidate>>, size: string -> int, b: Best): Best
  {
    if bs == [] then b
    else
      var b' := ScanList(bs[0], size, b);
      if b'.max > MinLength then b' else Scan(bs[1..], size, b')
  }

  /** Within a bucket the best size only rises, it bounds every candidate
      read, and it moves only to the size of a candidate of that bucket. */
  lemma {:induction false} ScanListBound(l: seq<Candidate>, size: string -> int, b: Best)
    ensures var r := ScanList(l, size, b);
      && r.max >= b.max
      && (forall i :: 0 <= i < |l| ==> size(l[i].src) <= r.max)
      && (r.max == b.max <==> forall i :: 0 <= i < |l| ==> size(l[i].src) <= b.max)
      && (r != b ==> r.max > b.max)
      && (r == b || exists i :: 0 <= i < |l| && r == Best(Some(l[i]), size(l[i].src)))
  {
    if l != [] {
      var s := size(l[0].src);
      var b1 := if b.max < s then Best(Some(l[0]), s) else b;
      ScanListBound(l[1..], size, b1);
      var r := ScanList(l, size, b);
      assert forall i :: 1 <= i < |l| ==> l[i] == l[1..][i - 1];
      if r != b && r != b1 {
        var i :| 0 <= i < |l[1..]| && r == Best(Some(l[1..][i]), size(l[1..][i].src));
        assert r == Best(Some(l[i + 1]), size(l[i + 1].src));
      }
    }
  }

  /** Sizes only replace the best when strictly larger, so of several
      equally large candidates the first one is kept. */
  lemma {:induction false} ScanListFirst(l: seq<Candidate>, size: string -> int, b: Best)
    requires ScanList(l, size, b) != b
    ensures var r := ScanList(l, size, b);
      exists i :: 0 <= i < |l| && r == Best(Some(l[i]), size(l[i].src))
        && forall j :: 0 <= j < i ==> size(l[j].src) < r.max
  {
    var r := ScanList(l, size, b);
    var s := size(l[0].src);
    var b1 := if b.max < s then Best(Some(l[0]), s) else b;
    if r == b1 {
      assert r == Best(Some(l[0]), size(l[0].src));
    } else {
      ScanListFirst(l[1..], size, b1);
      ScanListBound(l[1..], size, b1);
      var i :| 0 <= i < |l[1..]| && r == Best(Some(l[1..][i]), size(l[1..][i].src))
        && forall j :: 0 <= j < i ==> size(l[1..][j].src) < r.max;
      assert r == Best(Some(l[i + 1]), size(l[i + 1].src));
      forall j | 0 <= j < i + 1
        ensures size(l[j].src) < r.max
      {
        if j > 0 {
          assert l[j] == l[1..][j - 1];
        }
      }
    }
  }

  /** The best size across the buckets read stays where it started exactly
      when no candidate in any bucket is larger. */
  lemma {:induction false} ScanMax(bs: seq<seq<Candidate>>, size: string -> int, b: Best)
    requires b.max <= MinLength
    ensures var r := Scan(bs, size, b);
      && r.max >= b.max
      && (r.max == b.max <==> forall k, i :: 0 <= k < |bs| && 0 <= i < |bs[k]| ==> size(bs[k][i].src) <= b.max)
  {
    if bs != [] {
      var b1 := ScanList(bs[0], size, b);
      ScanListBound(bs[0], size, b);
      if b1.max <= MinLength {
        ScanMax(bs[1..], size, b1);
        assert forall k :: 1 <= k < |bs| ==> bs[k] == bs[1..][k - 1];
      }
    }
  }

  /** `find_image` picks nothing exactly when every size is -1 or less. */
  lemma ScanNothing(bs: seq<seq<Candidate>>, size: string -> int)
    ensures Scan(bs, size, NoBest).pick == None
      <==> forall k, i :: 0 <= k < |bs| && 0 <= i < |bs[k]| ==> size(bs[k][i].src) <= -1
  {
    ScanPicked(bs, size, NoBest);
    ScanMax(bs, size, NoBest);
  }

  /** The pick changes exactly when the best size does, and a new pick is a
      candidate of one of the buckets, of the size now best. */
  lemma {:induction false} ScanPicked(bs: seq<seq<Candidate>>, size: string -> int, b: Best)
    requires b.max >= -1 && (b.pick == None <==> b.max == -1)
    ensures var r := Scan(bs, size, b);
      && (r.pick == None <==> r.max == -1)
      && (r == b || exists k, i :: 0 <= k < |bs| && 0 <= i < |bs[k]| && r == Best(Some(bs[k][i]), size(bs[k][i].src)))
  {
    if bs != [] {
      var b1 := ScanList(bs[0], size, b);
      ScanListBound(bs[0], size, b);
      if b1 != b {
        var i :| 0 <= i < |bs[0]| && b1 == Best(Some(bs[0][i]), size(bs[0][i].src));
      }
      if b1.max <= MinLength {
        ScanPicked(bs[1..], size, b1);
        var r := Scan(bs, size, b);
        if r != b1 && r != b {
          var k, i :| 0 <= k < |bs[1..]| && 0 <= i < |bs[1..][k]| && r == Best(Some(bs[1..][k][i]), size(bs[1..][k][i].src));
          assert bs[1..][k] == bs[k + 1];
        }
      }
    }
  }

  /** When no size rises above `MinLength` every bucket is read, and the
      pick is a largest image of them all. */
  lemma {:induction false} ScanAllWhenSmall(bs: seq<seq<Candidate>>, size: string -> int, b: Best)
    requires Scan(bs, size, b).max <= MinLength
    ensures forall k, i :: 0 <= k < |bs| && 0 <= i < |bs[k]| ==> size(bs[k][i].src) <= Scan(bs, size, b).max
  {
    if bs != [] {
      var b1 := ScanList(bs[0], size, b);
      ScanListBound(bs[0], size, b);
      ScanStartBound(bs[1..], size, b1);
      ScanAllWhenSmall(bs[1..], size, b1);
      assert forall k :: 1 <= k < |bs| ==> bs[k] == bs[1..][k - 1];
    }
  }

  lemma {:induction false} ScanStartBound(bs: seq<seq<Candidate>>, size: string -> int, b: Best)
    ensures Scan(bs, size, b).max >= b.max
  {
    if bs != [] {
      ScanListBound(bs[0], size, b);
      ScanStartBound(bs[1..], size, ScanList(bs[0], size, b));
    }
  }

  /** Once bucket `k0` holds an image larger than `MinLength`, no later
      bucket is read: the pick comes from bucket `k0` or an earlier one. */
  lemma {:induction false} ScanStopsBy(bs: seq<seq<Candidate>>, size: string -> int, b: Best, k0: nat, i0: nat)
    requires k0 < |bs| && i0 < |bs[k0]| && size(bs[k0][i0].src) > MinLength
    ensures var r := Scan(bs, size, b);
      r == b || exists k, i :: 0 <= k <= k0 && 0 <= i < |bs[k]| && r.pick == Some(bs[k][i])
  {
    var b1 := ScanList(bs[0], size, b);
    ScanListBound(bs[0], size, b);
    if b1 != b {
      var i :| 0 <= i < |bs[0]| && b1 == Best(Some(bs[0][i]), size(bs[0][i].src));
    }
    if b1.max <= MinLength {
      assert k0 > 0;
      ScanStopsBy(bs[1..], size, b1, k0 - 1, i0);
      var r := Scan(bs, size, b);
      if r != b1 {
        var k, i :| 0 <= k <= k0 - 1 && 0 <= i < |bs[1..][k]| && r.pick == Some(bs[1..][k][i]);
        assert bs[1..][k] == bs[k + 1];
      }
    }
  }

  /** Across the buckets the best only moves to a strictly larger size. */
  lemma {:induction false} ScanRises(bs: seq<seq<Candidate>>, size: string -> int, b: Best)
    ensures var r := Scan(bs, size, b); r == b || r.max > b.max
  {
    if bs != [] {
      var b1 := ScanList(bs[0], size, b);
      ScanListBound(bs[0], size, b);
      if b1.max <= MinLength {
        ScanRises(bs[1..], size, b1);
      }
    }
  }

  /** Candidate `i` of bucket `k` is the best `r`, and every candidate read
      before it, in an earlier bucket or earlier in bucket `k`, is strictly
      smaller. */
  predicate PickedFirst(bs: seq<seq<Candidate>>, size: string -> int, r: Best, k: int, i: int)
  {
    && 0 <= k < |bs| && 0 <= i < |bs[k]| && r == Best(Some(bs[k][i]), size(bs[k][i].src))
    && (forall k', i' :: 0 <= k' < k && 0 <= i' < |bs[k']| ==> size(bs[k'][i'].src) < r.max)
    && (forall i' :: 0 <= i' < i ==> size(bs[k][i'].src) < r.max)
  }

  /** `maxsize` is carried from bucket to bucket and replaced only by a
      strictly larger size, so of equally large candidates the one read
      first wins. */
  lemma {:induction false} ScanFirst(bs: seq<seq<Candidate>>, size: string -> int, b: Best)
    requires Scan(bs, size, b) != b
    ensures exists k, i :: PickedFirst(bs, size, Scan(bs, size, b), k, i)
  {
    var r := Scan(bs, size, b);
    var b1 := ScanList(bs[0], size, b);
    if r == b1 {
      ScanListFirst(bs[0], size, b);
      var i :| 0 <= i < |bs[0]| && r == Best(Some(bs[0][i]), size(bs[0][i].src))
        && forall j :: 0 <= j < i ==> size(bs[0][j].src) < r.max;
      assert PickedFirst(bs, size, r, 0, i);
    } else {
      ScanListBound(bs[0], size, b);
      ScanRises(bs[1..], size, b1);
      ScanFirst(bs[1..], size, b1);
      var k, i :| PickedFirst(bs[1..], size, r, k, i);
      PickedFirstShift(bs, size, r, k, i);
    }
  }

  /** A first pick among the later buckets stays first when every candidate
      of the first bucket is smaller. */
  lemma PickedFirstShift(bs: seq<seq<Candidate>>, size: string -> int, r: Best, k: int, i: int)
    requires bs != [] && PickedFirst(bs[1..], size, r, k, i)
    requires forall j :: 0 <= j < |bs[0]| ==> size(bs[0][j].src) < r.max
    ensures PickedFirst(bs, size, r, k + 1, i)
  {
    assert bs[1..][k] == bs[k + 1];
    forall k', i' | 0 <= k' < k + 1 && 0 <= i' < |bs[k']|
      ensures size(bs[k'][i'].src) < r.max
    {
      if k' > 0 {
        assert bs[k'] == bs[1..][k' - 1];
      }
    }
  }

  class ImageParser {
    const pageUrl: string
    const pagePurl: Url
    const basePath: string
    /** `urlparse` */
    const parse: string -> Url
    /** `ParseResult.geturl` */
    const unparse: Url -> string
    /** The extensions the image library can open (`Image.EXTENSION`). */
    const known: set<string>
    var savedLink: Option<string>
    var buckets: seq<seq<Candidate>>

    predicate Valid()
      reads this
    {
      |buckets| == BucketCount
    }

    function State(): ParserState
      reads this
    {
      ParserState(savedLink, buckets)
    }

    /** `ImageParser(url)` before the page is read. */
    constructor (url: string, parse: string -> Url, unparse: Url -> string, known: set<string>)
      ensures pageUrl == url && pagePurl == parse(url) && basePath == BasePath(parse(url).path)
      ensures this.parse == parse && this.unparse == unparse && this.known == known
      ensures savedLink == None && buckets == seq(BucketCount, _ => [])
      ensures Valid()
    {
      pageUrl := url;
      pagePurl := parse(url);
      basePath := BasePath(parse(url).path);
      this.parse := parse;
      this.unparse := unparse;
      this.known := known;
      savedLink := None;
      buckets := seq(BucketCount, _ => []);
    }

    /** `self._fullpath(url)` */
    function FullPath(url: string): Url
    {
      Resolve(parse(url), pagePurl, basePath)
    }

    /** The saved link once an `a` tag with `attrs` has opened. */
    function LinkAfterStart(link: Option<string>, attrs: seq<(string, string)>): Option<string>
    {
      var l :=
        match Lookup(attrs, "href")
        case None => link
        case Some(href) =>
          var purl := FullPath(href);
          if purl.netloc == pagePurl.netloc then Some(unparse(purl)) else link;
      if l == Some(pageUrl) then None else l
    }

    /** The bucket an image with this path goes to while `link` is saved. */
    function ImagePriority(path: string, link: Option<string>): (p: nat)
      ensures p < BucketCount
    {
      var ext := Lower(SplitExt(path).1);
      Priority(ext !in known, NoLink(link), ext in Filtered)
    }

    /** The buckets once an `img` tag with `attrs` has been read. */
    function FiledImage(bs: seq<seq<Candidate>>, link: Option<string>, attrs: seq<(string, string)>): seq<seq<Candidate>>
      requires |bs| == BucketCount
    {
      match Lookup(attrs, "src")
      case None => bs
      case Some(src) =>
        var purl := FullPath(src);
        var p := ImagePriority(purl.path, link);
        bs[p := bs[p] + [Candidate(unparse(purl), link)]]
    }

    /** The state once the parser has been told of `e`. */
    function Step(st: ParserState, e: Event): ParserState
      requires |st.buckets| == BucketCount
    {
      match e
      case StartTag(tag, attrs) =>
        if tag == "a" then st.(savedLink := LinkAfterStart(st.savedLink, attrs))
        else if tag == "img" then st.(buckets := FiledImage(st.buckets, st.savedLink, attrs))
        else st
      case EndTag(tag) =>
        if tag == "a" then st.(savedLink := None) else st
    }

    /** The state once the parser has been told of every event in turn. */
    function Run(st: ParserState, events: seq<Event>): (r: ParserState)
      requires |st.buckets| == BucketCount
      ensures Grown(st.buckets, r.buckets)
    {
      if events == [] then st
      else
        var before := Run(st, events[..|events| - 1]);
        var after := Step(before, events[|events| - 1]);
        StepGrows(before, events[|events| - 1]);
        after
    }

    /** `start_a` */
    method StartA(attrs: seq<(string, string)>)
      modifies this
      ensures State() == ParserState(LinkAfterStart(old(savedLink), attrs), old(buckets))
    {
      match Lookup(attrs, "href") {
        case None =>
        case Some(href) =>
          var purl := FullPath(href);
          if purl.netloc == pagePurl.netloc {
            savedLink := Some(unparse(purl));
          }
      }
      if savedLink == Some(pageUrl) {
        savedLink := None;
      }
    }

    /** `end_a` */
    method EndA()
      modifies this
      ensures State() == ParserState(None, old(buckets))
    {
      savedLink := None;
    }

    /** `do_img` */
    method DoImg(attrs: seq<(string, string)>)
      requires Valid()
      modifies this
      ensures Valid()
      ensures State() == ParserState(old(savedLink), FiledImage(old(buckets), old(savedLink), attrs))
    {
      match Lookup(attrs, "src") {
        case None =>
        case Some(src) =>
          var purl := FullPath(src);
          var name_ext := SplitExt(purl.path);
          var ext := Lower(name_ext.1);
          var priority := Priority(ext !in known, NoLink(savedLink), ext in Filtered);
          buckets := buckets[priority := buckets[priority] + [Candidate(unparse(purl), savedLink)]];
      }
    }

    /** `handle_starttag` */
    method HandleStartTag(tag: string, attrs: seq<(string, string)>)
      requires Valid()
      modifies this
      ensures Valid()
      ensures State() == Step(old(State()), StartTag(tag, attrs))
    {
      if tag == "a" {
        StartA(attrs);
      } else if tag == "img" {
        DoImg(attrs);
      }
    }

    /** `handle_endtag` */
    method HandleEndTag(tag: string)
      requires Valid()
      modifies this
      ensures Valid()
      ensures State() == Step(old(State()), EndTag(tag))
    {
      if tag == "a" {
        EndA();
      }
    }

    /** A saved link never points back at the page itself. */
    lemma LinkNeverPage(link: Option<string>, attrs: seq<(string, string)>)
      ensures LinkAfterStart(link, attrs) != Some(pageUrl)
    {
    }

    /** A link an `a` tag saves that was not saved before is the tag's
        `href` completed against the page, and it is on the page's host. */
    lemma LinkFromHref(link: Option<string>, attrs: seq<(string, string)>)
      requires LinkAfterStart(link, attrs).Some? && LinkAfterStart(link, attrs) != link
      ensures exists href :: (Lookup(attrs, "href") == Some(href)
        && FullPath(href).netloc == pagePurl.netloc
        && LinkAfterStart(link, attrs) == Some(unparse(FullPath(href))))
    {
    }

    /** An `a` tag without `href` keeps the saved link (unless it is the
        page itself). */
    lemma LinkKeptWithoutHref(link: Option<string>, attrs: seq<(string, string)>)
      requires Lookup(attrs, "href").None? && link != Some(pageUrl)
      ensures LinkAfterStart(link, attrs) == link
    {
    }

    /** An image tag adds its completed source, with the saved link, at the
        end of one bucket and leaves the others as they were; the bucket
        says whether the extension is unknown, whether no link was open and
        whether the image is a `.gif`. */
    lemma FiledImageBucket(bs: seq<seq<Candidate>>, link: Option<string>, attrs: seq<(string, string)>, src: string)
      requires |bs| == BucketCount && Lookup(attrs, "src") == Some(src)
      ensures var r := FiledImage(bs, link, attrs);
        var ext := Lower(SplitExt(FullPath(src).path).1);
        exists p :: 0 <= p < BucketCount
          && r[p] == bs[p] + [Candidate(unparse(FullPath(src)), link)]
          && (forall k :: 0 <= k < BucketCount && k != p ==> r[k] == bs[k])
          && (p >= 4 <==> ext !in known)
          && (p % 4 >= 2 <==> NoLink(link))
          && (p % 2 == 1 <==> ext == ".gif")
    {
      var p := ImagePriority(FullPath(src).path, link);
      assert FiledImage(bs, link, attrs)[p] == bs[p] + [Candidate(unparse(FullPath(src)), link)];
    }

    /** An image tag without `src` changes nothing. */
    lemma FiledImageNoSrc(bs: seq<seq<Candidate>>, link: Option<string>, attrs: seq<(string, string)>)
      requires |bs| == BucketCount && Lookup(attrs, "src").None?
      ensures FiledImage(bs, link, attrs) == bs
    {
    }

    /** What `find_image` returns for the scan's outcome. */
    function Chosen(b: Best): Result<WebImage, string>
    {
      match b.pick
      case None => Err("No Image found at \"" + pageUrl + "\"")
      case Some(c) => NewWebImage([Strip(c.src)], pageUrl, c.link)
    }

    /** `find_image`, where `size(url)` stands for
        `int(ImageParser.get_content_length(url))`. */
    method FindImage(size: string -> int) returns (r: Result<WebImage, string>)
      ensures r == Chosen(Scan(buckets, size, NoBest))
    {
      var imageUrl: Option<Candidate> := None;
      var maxsize := -1;
      var k := 0;
      while k < |buckets|
        invariant 0 <= k <= |buckets|
        invariant Scan(buckets, size, NoBest) == Scan(buckets[k..], size, Best(imageUrl, maxsize))
      {
        var imgList := buckets[k];
        ghost var start := Best(imageUrl, maxsize);
        var i := 0;
        while i < |imgList|
          invariant 0 <= i <= |imgList|
          invariant ScanList(imgList, size, start) == ScanList(imgList[i..], size, Best(imageUrl, maxsize))
        {
          var c := imgList[i];
          var cSize := size(c.src);
          assert imgList[i..][1..] == imgList[i + 1..];
          if maxsize < cSize {
            imageUrl, maxsize := Some(c), cSize;
          }
          i := i + 1;
        }
        assert buckets[k..][0] == imgList && buckets[k..][1..] == buckets[k + 1..];
        assert imgList[i..] == [];
        if maxsize > MinLength {
          assert Scan(buckets, size, NoBest) == Best(imageUrl, maxsize);
          break;
        }
        k := k + 1;
      }
      if imageUrl.None? {
        return Err("No Image found at \"" + pageUrl + "\"");
      }
      r := NewWebImage([Strip(imageUrl.value.src)], pageUrl, imageUrl.value.link);
    }

    /** The state `ImageParser(url)` is left in as written, whatever tags the
        page holds. `super(HTMLParser, self).__init__()` starts above
        `HTMLParser`, so `HTMLParser.__init__` and its `reset()` never run.
        `feed` then fails on the raw-data buffer `reset()` would have set up,
        the `except` swallows the failure, and no tag reaches the handlers. */
    function FedAsWritten(events: seq<Event>): (st: ParserState)
      ensures st.savedLink == None && |st.buckets| == BucketCount
      ensures forall k :: 0 <= k < |st.buckets| ==> st.buckets[k] == []
    {
      ParserState(None, seq(BucketCount, _ => []))
    }

    /** As written, `find_image` raises `No Image found` for every page and
        every content length. */
    lemma AsWrittenFindsNothing(events: seq<Event>, size: string -> int)
      ensures Chosen(Scan(FedAsWritten(events).buckets, size, NoBest)) == Err("No Image found at \"" + pageUrl + "\"")
    {
      EmptyScan(FedAsWritten(events).buckets, size);
    }

    /** Empty buckets give no pick. */
    lemma EmptyScan(bs: seq<seq<Candidate>>, size: string -> int)
      requires forall k :: 0 <= k < |bs| ==> bs[k] == []
      ensures Scan(bs, size, NoBest).pick == None
    {
      ScanNothing(bs, size);
    }

    /** With the tags delivered (`Run`), a page holding one image with a
        `src` whose content length is known gives that image, with no link. */
    lemma ImageOnPageFound(src: string, size: string -> int)
      requires size(unparse(FullPath(src))) >= 0
      ensures var st := Run(ParserState(None, seq(BucketCount, _ => [])), [StartTag("img", [("src", src)])]);
        Chosen(Scan(st.buckets, size, NoBest)) == NewWebImage([Strip(unparse(FullPath(src)))], pageUrl, None)
    {
      var init := ParserState(None, seq(BucketCount, _ => []));
      var attrs := [("src", src)];
      var e := StartTag("img", attrs);
      assert [e][..0] == [];
      var bs := FiledImage(init.buckets, None, attrs);
      assert Run(init, [e]).buckets == bs;
      assert Lookup(attrs, "src") == Some(src) by {
        assert attrs[|attrs| - 1] == ("src", src);
      }
      var c := Candidate(unparse(FullPath(src)), None);
      FiledImageBucket(init.buckets, None, attrs, src);
      var p :| 0 <= p < BucketCount && bs[p] == [c] && (forall k :: 0 <= k < BucketCount && k != p ==> bs[k] == []);
      OnlyCandidate(bs, size, p, c);
    }

    /** Scanning buckets whose only candidate is `c`, of known size, picks `c`. */
    lemma OnlyCandidate(bs: seq<seq<Candidate>>, size: string -> int, p: nat, c: Candidate)
      requires p < |bs| && bs[p] == [c] && size(c.src) >= 0
      requires forall k :: 0 <= k < |bs| && k != p ==> bs[k] == []
      ensures Scan(bs, size, NoBest).pick == Some(c)
    {
      assert bs[p][0] == c;
      ScanNothing(bs, size);
      ScanPicked(bs, size, NoBest);
    }

    /** No tag takes an image out of a bucket or reorders one. */
    lemma StepGrows(st: ParserState, e: Event)
      requires |st.buckets| == BucketCount
      ensures Grown(st.buckets, Step(st, e).buckets)
    {
      if e.StartTag? && e.tag != "a" && e.tag == "img" {
        match Lookup(e.attrs, "src")
        case None =>
        case Some(src) =>
          FiledImageBucket(st.buckets, st.savedLink, e.attrs, src);
      }
    }
  }

  // ---------------------------------------------------------------------------
  // WebWrapper._builditem

  /** The prefix of an `onerror` handler that names a fallback source. */
  const Assign := "this.src="

  /** The addresses `_builditem` collects for an image tag with attributes
      `attrs` on the page `url`: its `src` (or else its `data-src`), then the
      fallback an `onerror="this.src='...'"` handler names. */
  function ItemUrls(parse: string -> Url, unparse: Url -> string, attrs: map<string, string>, url: string): seq<string>
  {
    var first :=
      if "src" in attrs then [WebFullPath(parse, unparse, Strip(attrs["src"]), url)]
      else if "data-src" in attrs then [WebFullPath(parse, unparse, Strip(attrs["data-src"]), url)]
      else [];
    var onerror := if "onerror" in attrs then attrs["onerror"] else "";
    if StartsWith(onerror, Assign) then
      var target := StripSet(Strip(onerror[|Assign|..]), Quotes);
      first + [Strip(WebFullPath(parse, unparse, target, url))]
    else first
  }

  /** `_builditem(itag, url, next_url)` */
  function BuildItem(parse: string -> Url, unparse: Url -> string, attrs: map<string, string>, url: string, nextUrl: string): Result<WebImage, string>
  {
    NewWebImage(ItemUrls(parse, unparse, attrs, url), url, Some(nextUrl))
  }

  /** The address `src`, else `data-src`, yields, if either is present. */
  function FirstSource(parse: string -> Url, unparse: Url -> string, attrs: map<string, string>, url: string): seq<string>
  {
    if "src" in attrs then [WebFullPath(parse, unparse, Strip(attrs["src"]), url)]
    else if "data-src" in attrs then [WebFullPath(parse, unparse, Strip(attrs["data-src"]), url)]
    else []
  }

  /** Whether the `onerror` handler names a fallback source. */
  predicate HasFallback(attrs: map<string, string>)
  {
    "onerror" in attrs && StartsWith(attrs["onerror"], Assign)
  }

  /** The collected addresses are the `src`/`data-src` address followed by the
      `onerror` fallback when there is one. */
  lemma ItemUrlsLayout(parse: string -> Url, unparse: Url -> string, attrs: map<string, string>, url: string)
    ensures var us := ItemUrls(parse, unparse, attrs, url);
      && (HasFallback(attrs) ==>
            us == FirstSource(parse, unparse, attrs, url) + [Strip(WebFullPath(parse, unparse, StripSet(Strip(attrs["onerror"][|Assign|..]), Quotes), url))])
      && (!HasFallback(attrs) ==> us == FirstSource(parse, unparse, attrs, url))
  {
    if !("onerror" in attrs) {
      assert !StartsWith("", Assign);
    }
  }

  /** The image address is the completed `src` when there is one, else the
      completed `data-src`, else the `onerror` fallback; the fallback, when
      there is one, comes last; and without any of the three the item fails. */
  lemma BuildItemSources(parse: string -> Url, unparse: Url -> string, attrs: map<string, string>, url: string, nextUrl: string)
    ensures var r := BuildItem(parse, unparse, attrs, url, nextUrl);
      && (r.Err? <==> "src" !in attrs && "data-src" !in attrs && !HasFallback(attrs))
      && (r.Ok? ==> r.value.pageUrl == url && r.value.nextPage == Some(nextUrl) && 1 <= |r.value.altUrls| <= 2)
      && ("src" in attrs ==> r.Ok? && r.value.imageUrl == WebFullPath(parse, unparse, Strip(attrs["src"]), url))
      && ("src" !in attrs && "data-src" in attrs ==> r.Ok? && r.value.imageUrl == WebFullPath(parse, unparse, Strip(attrs["data-src"]), url))
      && (HasFallback(attrs) ==> (r.Ok? && r.value.altUrls[|r.value.altUrls| - 1]
            == Strip(WebFullPath(parse, unparse, StripSet(Strip(attrs["onerror"][|Assign|..]), Quotes), url))))
      && (!HasFallback(attrs) && r.Ok? ==> |r.value.altUrls| == 1)
  {
    ItemUrlsLayout(parse, unparse, attrs, url);
    var us := ItemUrls(parse, unparse, attrs, url);
    var first := FirstSource(parse, unparse, attrs, url);
    assert |first| <= 1 && (first == [] <==> "src" !in attrs && "data-src" !in attrs);
    assert first != [] ==> us[0] == first[0];
  }

  /** A `src` that is empty or only spaces gives an empty image address. */
  lemma BuildItemBlankSrc(parse: string -> Url, unparse: Url -> string, attrs: map<string, string>, url: string, nextUrl: string)
    requires "src" in attrs && forall i :: 0 <= i < |attrs["src"]| ==> IsSpace(attrs["src"][i])
    ensures BuildItem(parse, unparse, attrs, url, nextUrl).Ok?
    ensures BuildItem(parse, unparse, attrs, url, nextUrl).value.imageUrl == []
  {
    AllSpaceStrip(attrs["src"]);
  }
}
