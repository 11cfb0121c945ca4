/**
 * The line-by-line pass of handleM3u8 (content.go) that turns a fetched media playlist into
 * the ordered list of resources to download: the header check, the key-URI lines near the
 * top, the segment lines, and the local file name each resource gets.
 *
 * url2absolute (RFC 3986 section 5.2 reference resolution through Go's net/url) and the
 * capture of the expression `URI="([\s\S]+)"` are parameters of the model: any function of
 * the right shape can stand for them.
 */
module Playlist {
  import opened Wrappers
  import opened Strings

  /** One resource named by the playlist: the reference as written, where to fetch it, and
      the local file name it is stored under. */
  datatype Link = Link(originUrl: string, downloadUrl: string, localPath: string)

  datatype PlaylistError =
    | FormatError(line: string)     // the first line is not the header; carries that line
    | ResolveError(reason: string)  // url2absolute failed on a reference

  /** url2absolute(pageUrl, href): the absolute address, or why it could not be formed. */
  type Resolver = (string, string) -> Result<string, string>

  /** The capture group of `URI="([\s\S]+)"` in a line, if the expression matches it. */
  type KeyCapture = string -> Option<string>

  const Header: string := "#EXTM3U"

  /** Comment lines after this index are not searched for a key URI. */
  const KeyScanLimit: nat := 10

  /** The counter's value before the first resource. */
  const FirstIndex: nat := 10000

  /** `fmt.Sprintf(prefix + "%05d.ts", tsIndex)`, with `prefix` taken literally. */
  function LocalName(prefix: string, tsIndex: nat): string {
    prefix + Pad5(tsIndex) + ".ts"
  }

  /** The reference a manifest line contributes, if any, given its index `key`. */
  function LineRef(key: nat, line: string, capture: KeyCapture): Option<string> {
    var t := TrimSpace(line);
    if t == [] then None
    else if HasPrefix(t, "#") then (if key <= KeyScanLimit then capture(t) else None)
    else Some(t)
  }

  /** The references contributed by the first `k` lines, in line order. */
  function RefsUpTo(lines: seq<string>, k: nat, capture: KeyCapture): seq<string>
    requires k <= |lines|
  {
    if k == 0 then []
    else
      var before := RefsUpTo(lines, k - 1, capture);
      match LineRef(k - 1, lines[k - 1], capture)
      case None => before
      case Some(ref) => before + [ref]
  }

  /** The links for `refs`, resolved and named in order (the k-th, from 0, after counter
      value FirstIndex + k + 1), or the first failure url2absolute reports. */
  /** The addresses url2absolute gives `refs`, in order, or the first failure it reports. */
  function Resolved(base: string, refs: seq<string>, resolve: Resolver): (r: Result<seq<string>, string>)
    ensures r.Success? ==> |r.value| == |refs|
  {
    if refs == [] then Success([])
    else
      match Resolved(base, refs[..|refs| - 1], resolve)
      case Failure(e) => Failure(e)
      case Success(hrefs) =>
        match resolve(base, refs[|refs| - 1])
        case Failure(e) => Failure(e)
        case Success(href) => Success(hrefs + [href])
  }

  /** The links for `refs` and their addresses: the k-th (from 0) is stored under the name for
      counter value FirstIndex + k + 1. */
  function Named(refs: seq<string>, hrefs: seq<string>, prefix: string): (links: seq<Link>)
    requires |hrefs| == |refs|
    ensures |links| == |refs|
  {
    seq(|refs|, k requires 0 <= k < |refs| => Link(refs[k], hrefs[k], LocalName(prefix, FirstIndex + k + 1)))
  }

  /** The links for `refs`, resolved and named in order, or the first failure url2absolute
      reports. */
  function Collected(base: string, refs: seq<string>, prefix: string, resolve: Resolver)
    : (r: Result<seq<Link>, string>)
  {
    match Resolved(base, refs, resolve)
    case Failure(e) => Failure(e)
    case Success(hrefs) => Success(Named(refs, hrefs, prefix))
  }

  /** What the pass computes from the playlist text: a format error if the first line is not
      the header, else the first resolution failure, else one link per reference. */
  function Plan(base: string, content: string, prefix: string, resolve: Resolver, capture: KeyCapture)
    : Result<seq<Link>, PlaylistError>
  {
    var lines := Split(content, '\n');
    var head := TrimSpace(lines[0]);
    if head != Header then Failure(FormatError(head))
    else
      match Collected(base, RefsUpTo(lines, |lines|, capture), prefix, resolve)
      case Failure(e) => Failure(ResolveError(e))
      case Success(links) => Success(links)
  }

  // ---------------------------------------------------------------------------
  // The loop itself

  /** The loop at the heart of handleM3u8: split the text into lines, trim each, reject a
      text whose first line is not the header, skip blank lines, take a key URI from a
      comment line among the first eleven, take every other line as a segment, and give
      each resource the next counter value as its name. */
  method CollectLinks(base: string, content: string, prefix: string, resolve: Resolver, capture: KeyCapture)
    returns (res: Result<seq<Link>, PlaylistError>)
    ensures res == Plan(base, content, prefix, resolve, capture)
  {
    var links: seq<Link> := [];
    var tsIndex := FirstIndex;
    var lines := Split(content, '\n');
    var key := 0;
    while key < |lines|
      invariant 0 <= key <= |lines|
      invariant key > 0 ==> TrimSpace(lines[0]) == Header
      invariant Collected(base, RefsUpTo(lines, key, capture), prefix, resolve) == Success(links)
      invariant tsIndex == FirstIndex + |links|
    {
      var line := TrimSpace(lines[key]);
      if key == 0 && line != Header {
        return Failure(FormatError(line));
      }
      if line == [] {
        // a blank line names nothing
        assert LineRef(key, lines[key], capture) == None;
        SkippedLine(base, lines, key, prefix, capture, resolve, links);
      } else if HasPrefix(line, "#") {
        // a comment line names its key URI, if it has one, among the first eleven lines
        var matches := if key <= KeyScanLimit then capture(line) else None;
        assert LineRef(key, lines[key], capture) == matches;
        if matches.Some? {
          var href := resolve(base, matches.value);
          if href.Failure? {
            FailedLine(base, lines, key, prefix, capture, resolve, links, matches.value, href.error);
            return Failure(ResolveError(href.error));
          }
          LinkedLine(base, lines, key, prefix, capture, resolve, links, matches.value, href.value);
          tsIndex := tsIndex + 1;
          assert tsIndex == FirstIndex + |links| + 1;
          var tsIndexName := LocalName(prefix, tsIndex);
          links := links + [Link(matches.value, href.value, tsIndexName)];
        } else {
          SkippedLine(base, lines, key, prefix, capture, resolve, links);
        }
      } else {
        // any other line is a segment
        assert LineRef(key, lines[key], capture) == Some(line);
        var href := resolve(base, line);
        if href.Failure? {
          FailedLine(base, lines, key, prefix, capture, resolve, links, line, href.error);
          return Failure(ResolveError(href.error));
        }
        LinkedLine(base, lines, key, prefix, capture, resolve, links, line, href.value);
        tsIndex := tsIndex + 1;
        assert tsIndex == FirstIndex + |links| + 1;
        var tsIndexName := LocalName(prefix, tsIndex);
        links := links + [Link(line, href.value, tsIndexName)];
      }
      key := key + 1;
    }
    res := Success(links);
  }

  /** Line `key` adds its reference, if it has one, after those of the lines before it. */
  lemma RefsStep(lines: seq<string>, key: nat, capture: KeyCapture, ref: Option<string>)
    requires key < |lines| && ref == LineRef(key, lines[key], capture)
    ensures ref.None? ==> RefsUpTo(lines, key + 1, capture) == RefsUpTo(lines, key, capture)
    ensures ref.Some? ==> RefsUpTo(lines, key + 1, capture) == RefsUpTo(lines, key, capture) + [ref.value]
  {}

  /** One more reference that resolves adds one link, named after the next counter value. */
  lemma ResolvedStep(base: string, refs: seq<string>, ref: string, prefix: string, resolve: Resolver,
                     links: seq<Link>, href: string)
    requires Collected(base, refs, prefix, resolve) == Success(links)
    requires resolve(base, ref) == Success(href)
    ensures Collected(base, refs + [ref], prefix, resolve)
            == Success(links + [Link(ref, href, LocalName(prefix, FirstIndex + |links| + 1))])
  {
    assert (refs + [ref])[..|refs + [ref]| - 1] == refs;
    var hrefs := Resolved(base, refs, resolve).value;
    assert Named(refs + [ref], hrefs + [href], prefix)
           == Named(refs, hrefs, prefix) + [Link(ref, href, LocalName(prefix, FirstIndex + |links| + 1))];
  }

  /** One more reference that does not resolve makes resolution fail with its error. */
  lemma UnresolvedStep(base: string, refs: seq<string>, ref: string, prefix: string, resolve: Resolver, e: string)
    requires Collected(base, refs, prefix, resolve).Success?
    requires resolve(base, ref) == Failure(e)
    ensures Collected(base, refs + [ref], prefix, resolve) == Failure(e)
  {
    assert (refs + [ref])[..|refs + [ref]| - 1] == refs;
  }

  /** A line that names nothing leaves the links as they are. */
  lemma SkippedLine(base: string, lines: seq<string>, key: nat, prefix: string, capture: KeyCapture,
                    resolve: Resolver, links: seq<Link>)
    requires key < |lines| && LineRef(key, lines[key], capture).None?
    requires Collected(base, RefsUpTo(lines, key, capture), prefix, resolve) == Success(links)
    ensures Collected(base, RefsUpTo(lines, key + 1, capture), prefix, resolve) == Success(links)
  {
    RefsStep(lines, key, capture, None);
  }

  /** A line whose reference resolves adds its link, named after the next counter value. */
  lemma LinkedLine(base: string, lines: seq<string>, key: nat, prefix: string, capture: KeyCapture,
                   resolve: Resolver, links: seq<Link>, ref: string, href: string)
    requires key < |lines| && LineRef(key, lines[key], capture) == Some(ref)
    requires resolve(base, ref) == Success(href)
    requires Collected(base, RefsUpTo(lines, key, capture), prefix, resolve) == Success(links)
    ensures Collected(base, RefsUpTo(lines, key + 1, capture), prefix, resolve)
            == Success(links + [Link(ref, href, LocalName(prefix, FirstIndex + |links| + 1))])
  {
    RefsStep(lines, key, capture, Some(ref));
    ResolvedStep(base, RefsUpTo(lines, key, capture), ref, prefix, resolve, links, href);
  }

  /** A line whose reference does not resolve, after lines that all resolved, decides the
      error of the whole playlist. */
  lemma FailedLine(base: string, lines: seq<string>, key: nat, prefix: string, capture: KeyCapture,
                   resolve: Resolver, links: seq<Link>, ref: string, e: string)
    requires key < |lines| && LineRef(key, lines[key], capture) == Some(ref)
    requires resolve(base, ref) == Failure(e)
    requires Collected(base, RefsUpTo(lines, key, capture), prefix, resolve) == Success(links)
    ensures Collected(base, RefsUpTo(lines, |lines|, capture), prefix, resolve) == Failure(e)
  {
    RefsStep(lines, key, capture, Some(ref));
    UnresolvedStep(base, RefsUpTo(lines, key, capture), ref, prefix, resolve, e);
    FailingLine(base, lines, key, prefix, capture, resolve);
  }

  /** A reference that fails to resolve after references that all resolved is the first
      failure of the whole playlist. */
  lemma FailingLine(base: string, lines: seq<string>, key: nat, prefix: string, capture: KeyCapture, resolve: Resolver)
    requires key < |lines|
    requires Collected(base, RefsUpTo(lines, key + 1, capture), prefix, resolve).Failure?
    ensures Collected(base, RefsUpTo(lines, |lines|, capture), prefix, resolve)
            == Collected(base, RefsUpTo(lines, key + 1, capture), prefix, resolve)
  {
    var upto := RefsUpTo(lines, key + 1, capture);
    var all := RefsUpTo(lines, |lines|, capture);
    RefsPrefix(lines, key + 1, |lines|, capture);
    assert all == upto + all[|upto|..];
    FailureSticks(base, upto, all[|upto|..], prefix, resolve);
  }

  /** Once a reference has failed, later references do not matter. */
  lemma {:induction false} FailureSticks(base: string, refs: seq<string>, more: seq<string>, prefix: string, resolve: Resolver)
    requires Collected(base, refs, prefix, resolve).Failure?
    ensures Collected(base, refs + more, prefix, resolve) == Collected(base, refs, prefix, resolve)
  {
    if more != [] {
      var init := more[..|more| - 1];
      assert (refs + more)[..|refs + more| - 1] == refs + init;
      FailureSticks(base, refs, init, prefix, resolve);
    } else {
      assert refs + more == refs;
    }
  }

  /** The references of the first `k` lines come first among those of the first `m`. */
  lemma {:induction false} RefsPrefix(lines: seq<string>, k: nat, m: nat, capture: KeyCapture)
    requires k <= m <= |lines|
    ensures |RefsUpTo(lines, k, capture)| <= |RefsUpTo(lines, m, capture)|
    ensures RefsUpTo(lines, k, capture) == RefsUpTo(lines, m, capture)[..|RefsUpTo(lines, k, capture)|]
  {
    if k < m {
      RefsPrefix(lines, k, m - 1, capture);
      var a, b := RefsUpTo(lines, k, capture), RefsUpTo(lines, m - 1, capture);
      assert b[..|a|] == a;
      assert RefsUpTo(lines, m, capture)[..|b|] == b;
    }
  }

  // ---------------------------------------------------------------------------
  // What the pass promises

  /** Resolution succeeds exactly when every reference resolves. */
  lemma {:induction false} CollectedSucceeds(base: string, refs: seq<string>, prefix: string, resolve: Resolver)
    ensures Collected(base, refs, prefix, resolve).Success?
            <==> forall k :: 0 <= k < |refs| ==> resolve(base, refs[k]).Success?
  {
    if refs != [] {
      var init := refs[..|refs| - 1];
      CollectedSucceeds(base, init, prefix, resolve);
      assert forall k :: 0 <= k < |init| ==> init[k] == refs[k];
    }
  }

  /** On success the k-th link (from 0) is the k-th reference, its resolved address, and
      the name after counter value FirstIndex + k + 1. */
  lemma {:induction false} CollectedLinks(base: string, refs: seq<string>, prefix: string, resolve: Resolver)
    requires Collected(base, refs, prefix, resolve).Success?
    ensures forall k :: 0 <= k < |refs| ==>
              && resolve(base, refs[k]).Success?
              && Collected(base, refs, prefix, resolve).value[k]
                 == Link(refs[k], resolve(base, refs[k]).value, LocalName(prefix, FirstIndex + k + 1))
  {
    if refs != [] {
      var init := refs[..|refs| - 1];
      var links := Collected(base, init, prefix, resolve).value;
      CollectedLinks(base, init, prefix, resolve);
      var href := resolve(base, refs[|refs| - 1]).value;
      assert Collected(base, refs, prefix, resolve).value
             == links + [Link(refs[|refs| - 1], href, LocalName(prefix, FirstIndex + |refs|))];
      assert forall k :: 0 <= k < |init| ==> init[k] == refs[k];
    }
  }

  /** The first reference that fails to resolve decides the error of the whole list. */
  lemma FirstFailure(base: string, refs: seq<string>, j: nat, prefix: string, resolve: Resolver)
    requires j < |refs| && resolve(base, refs[j]).Failure?
    requires forall k :: 0 <= k < j ==> resolve(base, refs[k]).Success?
    ensures Collected(base, refs, prefix, resolve) == Failure(resolve(base, refs[j]).error)
  {
    var upto := refs[..j + 1];
    CollectedSucceeds(base, upto[..j], prefix, resolve);
    assert upto[..|upto| - 1] == upto[..j];
    assert refs == upto + refs[j + 1..];
    FailureSticks(base, upto, refs[j + 1..], prefix, resolve);
  }

  /** Different counter values give different file names under the same prefix. */
  lemma LocalNameInjective(prefix: string, a: nat, b: nat)
    requires LocalName(prefix, a) == LocalName(prefix, b)
    ensures a == b
  {
    var na, nb := LocalName(prefix, a), LocalName(prefix, b);
    assert Pad5(a) == na[|prefix|..|na| - 3];
    assert Pad5(b) == nb[|prefix|..|nb| - 3];
    if a != b {
      Pad5Injective(a, b);
    }
  }

  /** The indices, in increasing order, of the first `k` lines that name a resource. */
  function RefLines(lines: seq<string>, k: nat, capture: KeyCapture): (idx: seq<nat>)
    requires k <= |lines|
    ensures forall j :: 0 <= j < |idx| ==> idx[j] < k
  {
    if k == 0 then []
    else if LineRef(k - 1, lines[k - 1], capture).Some? then RefLines(lines, k - 1, capture) + [k - 1]
    else RefLines(lines, k - 1, capture)
  }

  /** The references come one per naming line, in line order: the j-th reference is what
      line RefLines[j] names, those lines are strictly increasing, and a line not among them
      names nothing. */
  lemma {:induction false} RefsInLineOrder(lines: seq<string>, k: nat, capture: KeyCapture)
    requires k <= |lines|
    ensures |RefLines(lines, k, capture)| == |RefsUpTo(lines, k, capture)|
    ensures forall j :: 0 <= j < |RefLines(lines, k, capture)| ==>
              LineRef(RefLines(lines, k, capture)[j], lines[RefLines(lines, k, capture)[j]], capture)
              == Some(RefsUpTo(lines, k, capture)[j])
    ensures forall i, j :: 0 <= i < j < |RefLines(lines, k, capture)| ==>
              RefLines(lines, k, capture)[i] < RefLines(lines, k, capture)[j]
    ensures forall i :: 0 <= i < k && i !in RefLines(lines, k, capture) ==>
              LineRef(i, lines[i], capture).None?
  {
    if k > 0 {
      RefsInLineOrder(lines, k - 1, capture);
    }
  }

  /** A blank line names nothing, a comment line names at most its key URI and only among
      the first eleven lines, and any other line names itself, trimmed. */
  lemma LineKinds(key: nat, line: string, capture: KeyCapture)
    ensures TrimSpace(line) == [] ==> LineRef(key, line, capture).None?
    ensures HasPrefix(TrimSpace(line), "#") ==>
              LineRef(key, line, capture) == (if key <= KeyScanLimit then capture(TrimSpace(line)) else None)
    ensures TrimSpace(line) != [] && !HasPrefix(TrimSpace(line), "#") ==>
              LineRef(key, line, capture) == Some(TrimSpace(line))
    ensures TrimmedAt(line, TrimSpace(line), SkipSpace(line, 0))
  {
    TrimSpaceTrims(line);
  }

  /** A playlist is rejected as malformed exactly when its first line, trimmed, is not the
      header; the error carries that line. */
  lemma HeaderRejected(base: string, content: string, prefix: string, resolve: Resolver, capture: KeyCapture)
    ensures var head := TrimSpace(Split(content, '\n')[0]);
            (Plan(base, content, prefix, resolve, capture).Failure?
             && Plan(base, content, prefix, resolve, capture).error.FormatError?)
            <==> head != Header
    ensures var head := TrimSpace(Split(content, '\n')[0]);
            head != Header ==> Plan(base, content, prefix, resolve, capture) == Failure(FormatError(head))
  {}

  /** A well-formed playlist succeeds exactly when all its references resolve; otherwise the
      error is that of the first reference that does not. */
  lemma PlanOutcome(base: string, content: string, prefix: string, resolve: Resolver, capture: KeyCapture)
    requires TrimSpace(Split(content, '\n')[0]) == Header
    ensures var refs := RefsUpTo(Split(content, '\n'), |Split(content, '\n')|, capture);
            Plan(base, content, prefix, resolve, capture).Success?
            <==> forall k :: 0 <= k < |refs| ==> resolve(base, refs[k]).Success?
    ensures var refs := RefsUpTo(Split(content, '\n'), |Split(content, '\n')|, capture);
            forall j :: 0 <= j < |refs| && resolve(base, refs[j]).Failure?
                        && (forall k :: 0 <= k < j ==> resolve(base, refs[k]).Success?) ==>
              Plan(base, content, prefix, resolve, capture) == Failure(ResolveError(resolve(base, refs[j]).error))
  {
    var refs := RefsUpTo(Split(content, '\n'), |Split(content, '\n')|, capture);
    CollectedSucceeds(base, refs, prefix, resolve);
    forall j | 0 <= j < |refs| && resolve(base, refs[j]).Failure?
               && (forall k :: 0 <= k < j ==> resolve(base, refs[k]).Success?)
      ensures Plan(base, content, prefix, resolve, capture) == Failure(ResolveError(resolve(base, refs[j]).error))
    {
      FirstFailure(base, refs, j, prefix, resolve);
    }
  }

  /** Links named after consecutive counter values never share a file name. */
  lemma NamesDistinct(links: seq<Link>, prefix: string)
    requires forall k :: 0 <= k < |links| ==> links[k].localPath == LocalName(prefix, FirstIndex + k + 1)
    ensures forall i, j :: 0 <= i < j < |links| ==> links[i].localPath != links[j].localPath
  {
    forall i, j | 0 <= i < j < |links|
      ensures links[i].localPath != links[j].localPath
    {
      if links[i].localPath == links[j].localPath {
        LocalNameInjective(prefix, FirstIndex + i + 1, FirstIndex + j + 1);
      }
    }
  }

  /** On success there is one link per reference, in order: the k-th keeps the reference as
      written, carries its resolved address, and is stored under the name for counter value
      FirstIndex + k + 1, so no two links share a file name. */
  lemma PlanLinks(base: string, content: string, prefix: string, resolve: Resolver, capture: KeyCapture)
    requires Plan(base, content, prefix, resolve, capture).Success?
    ensures var refs := RefsUpTo(Split(content, '\n'), |Split(content, '\n')|, capture);
            var links := Plan(base, content, prefix, resolve, capture).value;
            && |links| == |refs|
            && (forall k :: 0 <= k < |links| ==>
                  resolve(base, refs[k]).Success? && links[k] == Link(refs[k], resolve(base, refs[k]).value, LocalName(prefix, FirstIndex + k + 1)))
            && (forall i, j :: 0 <= i < j < |links| ==> links[i].localPath != links[j].localPath)
  {
    var lines := Split(content, '\n');
    var refs := RefsUpTo(lines, |lines|, capture);
    var c := Collected(base, refs, prefix, resolve);
    assert c.Success? && Plan(base, content, prefix, resolve, capture).value == c.value;
    CollectedLinks(base, refs, prefix, resolve);
    NamesDistinct(c.value, prefix);
  }
}
