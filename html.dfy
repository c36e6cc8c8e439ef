/** The HTML text and link extractor of words/html.go. The tags are given as
    the [start, end) byte ranges of their `<...>` text in the body. The text
    between two tags goes to the content, entities unescaped, and the `href`
    of every `a` tag goes to the links. */
module Html {
  import opened Utf8

  /** The bytes of an ASCII string. */
  function Ascii(s: string): (b: Bytes)
    requires forall k :: 0 <= k < |s| ==> s[k] as int < 256
    ensures |b| == |s| && forall k :: 0 <= k < |s| ==> b[k] == s[k] as int
  {
    seq(|s|, k requires 0 <= k < |s| => s[k] as int)
  }

  const SP: byte := 32
  const BANG: byte := 33
  const QUOTE: byte := 34
  const SLASH: byte := 47
  const LT: byte := 60
  const GT: byte := 62
  const TAB: byte := 9
  const LF: byte := 10
  const CR: byte := 13

  const HREF: Bytes := Ascii("href=\"")
  const NBSP: Bytes := Ascii("&nbsp;")

  const A: Bytes := Ascii("a")
  const STYLE: Bytes := Ascii("style")
  const IMG: Bytes := Ascii("img")
  const INS: Bytes := Ascii("ins")
  const SCRIPT: Bytes := Ascii("script")
  const OBJECT: Bytes := Ascii("object")

  /** The tags before whose following text a tab is written. */
  const Blocks: set<Bytes> := {
    Ascii("p"), Ascii("h1"), Ascii("h2"), Ascii("h3"), Ascii("h4"), Ascii("h5"),
    Ascii("option"), Ascii("div"), Ascii("span"), Ascii("br"), Ascii("li"), Ascii("ul")}

  // ---------------------------------------------------------------------
  // Tag names

  /** The tags `HTMLGetTagName` reads without going out of range: at least
      two bytes, not starting with a space, and three when the second is a
      slash. */
  predicate TagShape(tag: Bytes)
  {
    |tag| >= 2 && tag[0] != SP && (tag[1] == SLASH ==> |tag| >= 3)
  }

  /** The first space at or after `i`, or the length. */
  function FirstSpace(tag: Bytes, i: int): (r: int)
    requires 0 <= i <= |tag|
    ensures i <= r <= |tag| && (r < |tag| ==> tag[r] == SP)
    ensures forall k :: i <= k < r ==> tag[k] != SP
    decreases |tag| - i
  {
    if i == |tag| || tag[i] == SP then i else FirstSpace(tag, i + 1)
  }

  /** `HTMLGetTagName`: the name runs from after `<` (or `</`) to the first
      space, or to the last byte; the tag closes when it starts with `</`
      or `<!` or its next-to-last byte is a slash. `TagNameOfPlain`,
      `TagNameOfAttributed` and `TagNameOfClosing` give the name and flag
      for each shape of tag. */
  function TagName(tag: Bytes): (r: (Bytes, bool))
    requires TagShape(tag)
    ensures SP !in r.0
  {
    var closing := tag[1] == SLASH || tag[|tag| - 2] == SLASH || tag[1] == BANG;
    var start := if tag[1] == SLASH then 2 else 1;
    var sp := FirstSpace(tag, 0);
    (if sp < |tag| then tag[start..sp] else tag[start..|tag| - 1], closing)
  }

  /** An opening tag without attributes gives its name back; it counts as
      closing when the name ends with a slash (`<br/>`). */
  lemma TagNameOfPlain(name: Bytes)
    requires name != [] && SP !in name && name[0] != SLASH && name[0] != BANG
    ensures TagName([LT] + name + [GT]) == (name, name[|name| - 1] == SLASH)
  {
    var tag := [LT] + name + [GT];
    assert FirstSpace(tag, 0) == |tag| by {
      assert forall k :: 0 <= k < |tag| ==> tag[k] != SP by {
        forall k | 0 <= k < |tag| ensures tag[k] != SP {
          if 0 < k < |tag| - 1 { assert tag[k] == name[k - 1]; }
        }
      }
      FirstSpaceNone(tag, 0);
    }
    assert tag[1..|tag| - 1] == name;
  }

  /** An opening tag with attributes gives its name back; it counts as
      closing when the attributes end with a slash (`<img src="x"/>`). */
  lemma TagNameOfAttributed(name: Bytes, attrs: Bytes)
    requires name != [] && SP !in name && name[0] != SLASH && name[0] != BANG
    ensures TagName([LT] + name + [SP] + attrs + [GT]) == (name, attrs != [] && attrs[|attrs| - 1] == SLASH)
  {
    var tag := [LT] + name + [SP] + attrs + [GT];
    assert FirstSpace(tag, 0) == |name| + 1 by {
      forall k | 0 <= k < |name| + 1 ensures tag[k] != SP {
        if 0 < k { assert tag[k] == name[k - 1]; }
      }
      FirstSpaceAt(tag, 0, |name| + 1);
    }
    assert tag[1..|name| + 1] == name;
  }

  /** A closing tag gives its name back. */
  lemma TagNameOfClosing(name: Bytes)
    requires SP !in name
    ensures TagName([LT, SLASH] + name + [GT]) == (name, true)
  {
    var tag := [LT, SLASH] + name + [GT];
    assert FirstSpace(tag, 0) == |tag| by {
      forall k | 0 <= k < |tag| ensures tag[k] != SP {
        if 1 < k < |tag| - 1 { assert tag[k] == name[k - 2]; }
      }
      FirstSpaceNone(tag, 0);
    }
    assert tag[2..|tag| - 1] == name;
  }

  lemma {:induction false} FirstSpaceNone(tag: Bytes, i: int)
    requires 0 <= i <= |tag| && forall k :: i <= k < |tag| ==> tag[k] != SP
    ensures FirstSpace(tag, i) == |tag|
    decreases |tag| - i
  {
    if i < |tag| {
      FirstSpaceNone(tag, i + 1);
    }
  }

  lemma {:induction false} FirstSpaceAt(tag: Bytes, i: int, n: int)
    requires 0 <= i <= n < |tag| && tag[n] == SP && forall k :: i <= k < n ==> tag[k] != SP
    ensures FirstSpace(tag, i) == n
    decreases n - i
  {
    if i < n {
      FirstSpaceAt(tag, i + 1, n);
    }
  }

  /** `HTMLGetTagName`, with its search for the first space. */
  method GetTagName(tag: Bytes) returns (name: Bytes, closing: bool)
    requires TagShape(tag)
    ensures (name, closing) == TagName(tag)
  {
    closing := tag[1] == SLASH || tag[|tag| - 2] == SLASH || tag[1] == BANG;
    var startPos := 1;
    if tag[1] == SLASH {
      startPos := 2;
    }
    var i := 0;
    while i < |tag|
      invariant 0 <= i <= |tag|
      invariant FirstSpace(tag, i) == FirstSpace(tag, 0)
      decreases |tag| - i
    {
      if tag[i] == SP {
        name := tag[startPos..i];
        return;
      }
      i := i + 1;
    }
    name := tag[startPos..|tag| - 1];
  }

  // ---------------------------------------------------------------------
  // Links

  /** `pat` occurs in `s` at `k`. */
  predicate At(s: Bytes, k: int, pat: Bytes)
  {
    0 <= k && k + |pat| <= |s| && s[k..k + |pat|] == pat
  }

  /** `strings.Index`: the first place `pat` occurs in `s` from `i` on, or -1. */
  function IndexFrom(s: Bytes, pat: Bytes, i: int): (r: int)
    requires 0 <= i
    ensures r == -1 || (i <= r && At(s, r, pat))
    ensures forall k :: i <= k && (r == -1 || k < r) ==> !At(s, k, pat)
    decreases |s| - i
  {
    if i + |pat| > |s| then -1
    else if s[i..i + |pat|] == pat then i
    else IndexFrom(s, pat, i + 1)
  }

  /** `HTMLGetLink`: what lies between the first `href="` and the next
      quote, or nothing. */
  function GetLink(t: Bytes): (link: Bytes)
  {
    var start := IndexFrom(t, HREF, 0);
    if start >= 0 then
      var from := start + |HREF|;
      var end := IndexFrom(t[from..], [QUOTE], 0);
      if end >= 0 then t[from..from + end] else []
    else []
  }

  /** The link is the text up to the first quote after the first `href="`. */
  lemma LinkOf(pre: Bytes, url: Bytes, post: Bytes)
    requires forall k :: 0 <= k < |pre| ==> !At(pre + HREF + url, k, HREF)
    requires QUOTE !in url
    ensures GetLink(pre + HREF + url + [QUOTE] + post) == url
  {
    var t := pre + HREF + url + [QUOTE] + post;
    var after := [QUOTE] + post;
    FirstHref(pre, url, after);
    assert t == pre + HREF + (url + after);
    assert IndexFrom(t, HREF, 0) == |pre|;
    var from := |pre| + |HREF|;
    var rest := t[from..];
    assert rest == url + [QUOTE] + post;
    FirstQuote(url, post);
    assert IndexFrom(rest, [QUOTE], 0) == |url|;
    assert t[from..from + |url|] == url;
  }

  lemma FirstHref(pre: Bytes, url: Bytes, post: Bytes)
    requires forall k :: 0 <= k < |pre| ==> !At(pre + HREF + url, k, HREF)
    ensures IndexFrom(pre + HREF + (url + post), HREF, 0) == |pre|
  {
    var t := pre + HREF + (url + post);
    var u := pre + HREF + url;
    forall k | 0 <= k < |pre| ensures !At(t, k, HREF) {
      assert !At(u, k, HREF);
      assert t[k..k + |HREF|] == u[k..k + |HREF|];
    }
    assert t[|pre|..|pre| + |HREF|] == HREF;
    assert At(t, |pre|, HREF);
  }

  lemma FirstQuote(url: Bytes, post: Bytes)
    requires QUOTE !in url
    ensures IndexFrom(url + [QUOTE] + post, [QUOTE], 0) == |url|
  {
    var rest := url + [QUOTE] + post;
    forall k | 0 <= k < |url| ensures !At(rest, k, [QUOTE]) {
      assert rest[k] == url[k];
      assert rest[k..k + 1] == [rest[k]];
    }
    assert rest[|url|..|url| + 1] == [QUOTE];
    assert At(rest, |url|, [QUOTE]);
  }

  /** Without `href="` there is no link. */
  lemma NoHrefNoLink(t: Bytes)
    requires forall k :: !At(t, k, HREF)
    ensures GetLink(t) == []
  {
    assert IndexFrom(t, HREF, 0) == -1;
  }

  // ---------------------------------------------------------------------
  // Entities

  /** `HTMLUnescapeString`: `&nbsp;` becomes a plain space, a line feed or
      carriage return disappears, anything else goes to the library's
      unescaping (`html.UnescapeString`, here `lib`). */
  function UnescapeString(lib: Bytes -> Bytes, data: Bytes): (s: Bytes)
    ensures data == NBSP ==> s == [SP]
    ensures data == [LF] || data == [CR] ==> s == []
    ensures data != NBSP && data != [LF] && data != [CR] ==> s == lib(data)
  {
    if data == NBSP then [SP]
    else if data == [LF] || data == [CR] then []
    else lib(data)
  }

  /** A match range from `from` on, inside a text of length `n`. */
  predicate Next(m: (int, int), from: int, n: int)
  {
    from <= m.0 <= m.1 <= n
  }

  /** `Regexp.ReplaceAllStringFunc` given the ranges matched, in order:
      each match replaced by `f` of its text, the text between matches
      kept. A regular expression engine hands over ranges in order and
      inside the text; a range that is not ends the replacing. */
  function ReplaceAll(s: Bytes, ms: seq<(int, int)>, from: int, f: Bytes -> Bytes): (r: Bytes)
    requires 0 <= from <= |s|
    decreases |ms|
  {
    if ms == [] || !Next(ms[0], from, |s|) then s[from..]
    else s[from..ms[0].0] + f(s[ms[0].0..ms[0].1]) + ReplaceAll(s, ms[1..], ms[0].1, f)
  }

  /** Replacing every match by its own text gives the text back. */
  lemma {:induction false} ReplaceAllSame(s: Bytes, ms: seq<(int, int)>, from: int, f: Bytes -> Bytes)
    requires 0 <= from <= |s|
    requires forall x :: f(x) == x
    ensures ReplaceAll(s, ms, from, f) == s[from..]
    decreases |ms|
  {
    if ms != [] && Next(ms[0], from, |s|) {
      ReplaceAllSame(s, ms[1..], ms[0].1, f);
      assert s[from..] == s[from..ms[0].0] + s[ms[0].0..ms[0].1] + s[ms[0].1..];
    }
  }

  /** The library calls the extractor makes: the matches of the entity
      expression `(&(.)+;)|(\n)|(\r)` in a text, and `html.UnescapeString`. */
  datatype Library = Library(entities: Bytes -> seq<(int, int)>, unescape: Bytes -> Bytes)

  /** The text with its entities replaced by `HTMLUnescapeString`. */
  function Unescape(lib: Library, text: Bytes): Bytes
  {
    ReplaceAll(text, lib.entities(text), 0, d => UnescapeString(lib.unescape, d))
  }

  // ---------------------------------------------------------------------
  // Tags

  /** The tag ranges as `HTMLParse` finds them: every start inside the
      body, and every tag but the last a range of the body that
      `HTMLGetTagName` can read. */
  predicate Located(body: Bytes, tags: seq<(int, int)>)
  {
    (forall k :: 0 <= k < |tags| ==> 0 <= tags[k].0 <= |body|) &&
    (forall k :: 0 <= k < |tags| - 1 ==>
       tags[k].0 <= tags[k].1 <= |body| && TagShape(body[tags[k].0..tags[k].1]))
  }

  /** The text of tag `i`. */
  function Tag(body: Bytes, tags: seq<(int, int)>, i: int): (t: Bytes)
    requires Located(body, tags) && 0 <= i < |tags| - 1
    ensures TagShape(t)
  {
    body[tags[i].0..tags[i].1]
  }

  /** `HTMLProcessTag`: the text between tag `i` and the next, unescaped,
      when there is such text. */
  function Gap(body: Bytes, tags: seq<(int, int)>, lib: Library, i: int): (r: Bytes)
    requires Located(body, tags) && 0 <= i
  {
    if i < |tags| - 1 && tags[i + 1].0 > tags[i].1 then Unescape(lib, body[tags[i].1..tags[i + 1].0])
    else []
  }

  /** The first tag from `k` on, the last excepted, that closes `name`, or
      the last tag. */
  function Close(body: Bytes, tags: seq<(int, int)>, name: Bytes, k: int): (m: int)
    requires Located(body, tags) && 0 <= k <= |tags| - 1
    ensures k <= m <= |tags| - 1
    ensures m < |tags| - 1 ==> TagName(Tag(body, tags, m)) == (name, true)
    ensures forall l :: k <= l < m ==> TagName(Tag(body, tags, l)) != (name, true)
    decreases |tags| - k
  {
    if k == |tags| - 1 || TagName(Tag(body, tags, k)) == (name, true) then k
    else Close(body, tags, name, k + 1)
  }

  /** The content written and the links found. */
  datatype Extracted = Extracted(content: Bytes, links: seq<Bytes>)

  /** What the loop does with a tag, by name and by whether it closes:
      take the link of an `a` tag; drop the text after an opening `style`,
      `img` or `ins`; skip an opening `script` or `object` up to the tag
      closing it; write a tab before the text of a block tag. */
  datatype Role = Link | Drop | Hide | Block | Plain

  function RoleOf(name: Bytes, closing: bool): Role
  {
    if name == A then Link
    else if name == STYLE || name == IMG || name == INS then (if closing then Plain else Drop)
    else if name == SCRIPT || name == OBJECT then (if closing then Plain else Hide)
    else if name in Blocks then Block
    else Plain
  }

  /** The role of tag `i`. */
  function RoleAt(body: Bytes, tags: seq<(int, int)>, i: int): Role
    requires Located(body, tags) && 0 <= i < |tags| - 1
  {
    var (name, closing) := TagName(Tag(body, tags, i));
    RoleOf(name, closing)
  }

  /** One turn of the loop of `HTMLProcessTags`: what it writes, the link it
      finds, and the tag it goes on with. */
  datatype Turn = Turn(text: Bytes, links: seq<Bytes>, next: int)

  /** The turn at tag `i`: apart from the dropped case, the text after the
      tag (or after the tag skipped to) is written. */
  function Step(body: Bytes, tags: seq<(int, int)>, lib: Library, i: int): (r: Turn)
    requires Located(body, tags) && 0 <= i < |tags| - 1
    ensures i < r.next <= |tags|
  {
    match RoleAt(body, tags, i)
    case Link =>
      var link := GetLink(Tag(body, tags, i));
      Turn(Gap(body, tags, lib, i), if |link| > 0 then [link] else [], i + 1)
    case Drop => Turn([], [], i + 1)
    case Hide =>
      var m := Close(body, tags, TagName(Tag(body, tags, i)).0, i + 1);
      Turn(Gap(body, tags, lib, m), [], m + 1)
    case Block => Turn([TAB] + Gap(body, tags, lib, i), [], i + 1)
    case Plain => Turn(Gap(body, tags, lib, i), [], i + 1)
  }

  /** What the loop of `HTMLProcessTags` produces from tag `i` on. */
  function Scan(body: Bytes, tags: seq<(int, int)>, lib: Library, i: int): (r: Extracted)
    requires Located(body, tags) && 0 <= i <= |tags|
    decreases |tags| - i
  {
    if i >= |tags| - 1 then Extracted([], [])
    else
      var t := Step(body, tags, lib, i);
      var rest := Scan(body, tags, lib, t.next);
      Extracted(t.text + rest.content, t.links + rest.links)
  }

  lemma ScanUnfold(body: Bytes, tags: seq<(int, int)>, lib: Library, i: int)
    requires Located(body, tags) && 0 <= i < |tags| - 1
    ensures var t := Step(body, tags, lib, i);
      Scan(body, tags, lib, i) ==
        Extracted(t.text + Scan(body, tags, lib, t.next).content, t.links + Scan(body, tags, lib, t.next).links)
  {
  }

  /** An `a` tag with a link, at `k`. */
  predicate Anchor(body: Bytes, tags: seq<(int, int)>, k: int)
    requires Located(body, tags) && 0 <= k < |tags| - 1
  {
    RoleAt(body, tags, k) == Link && GetLink(Tag(body, tags, k)) != []
  }

  /** Every link comes from an `a` tag at or after `i`, the last tag
      excepted, and none is empty. */
  lemma {:induction false} LinksFromAnchors(body: Bytes, tags: seq<(int, int)>, lib: Library, i: int)
    requires Located(body, tags) && 0 <= i <= |tags|
    ensures forall l :: l in Scan(body, tags, lib, i).links ==>
      exists k :: i <= k < |tags| - 1 && Anchor(body, tags, k) && l == GetLink(Tag(body, tags, k))
    decreases |tags| - i
  {
    if i < |tags| - 1 {
      var t := Step(body, tags, lib, i);
      ScanUnfold(body, tags, lib, i);
      StepLinks(body, tags, lib, i);
      LinksFromAnchors(body, tags, lib, t.next);
      forall l | l in t.links
        ensures exists k :: i <= k < |tags| - 1 && Anchor(body, tags, k) && l == GetLink(Tag(body, tags, k))
      {
        assert Anchor(body, tags, i);
      }
    }
  }

  /** An opening `script` or `object` tag at `k`. */
  predicate Hides(body: Bytes, tags: seq<(int, int)>, k: int)
    requires Located(body, tags) && 0 <= k < |tags| - 1
  {
    RoleAt(body, tags, k) == Hide
  }

  /** A turn finds the link of an `a` tag, and only that; it goes on with
      the next tag unless it skips a `script` or `object`. */
  lemma StepLinks(body: Bytes, tags: seq<(int, int)>, lib: Library, i: int)
    requires Located(body, tags) && 0 <= i < |tags| - 1
    ensures var t := Step(body, tags, lib, i);
      t.links == (if Anchor(body, tags, i) then [GetLink(Tag(body, tags, i))] else []) &&
      (!Hides(body, tags, i) ==> t.next == i + 1)
  {
  }

  /** The links of the `a` tags from `i` on, the last tag excepted, in
      order. */
  function Anchors(body: Bytes, tags: seq<(int, int)>, i: int): (ls: seq<Bytes>)
    requires Located(body, tags) && 0 <= i <= |tags|
    decreases |tags| - i
  {
    if i >= |tags| - 1 then []
    else (if Anchor(body, tags, i) then [GetLink(Tag(body, tags, i))] else []) + Anchors(body, tags, i + 1)
  }

  /** With no `script` or `object` to skip, the links are those of all the
      `a` tags, in tag order. */
  lemma {:induction false} LinksInOrder(body: Bytes, tags: seq<(int, int)>, lib: Library, i: int)
    requires Located(body, tags) && 0 <= i <= |tags|
    requires forall k :: i <= k < |tags| - 1 ==> !Hides(body, tags, k)
    ensures Scan(body, tags, lib, i).links == Anchors(body, tags, i)
    decreases |tags| - i
  {
    if i < |tags| - 1 {
      ScanUnfold(body, tags, lib, i);
      StepLinks(body, tags, lib, i);
      LinksInOrder(body, tags, lib, i + 1);
    }
  }

  /** The `a` tags between an opening `script` or `object` and the tag
      closing it give no link. */
  lemma ScriptHidesLinks(body: Bytes, tags: seq<(int, int)>, lib: Library, i: int)
    requires Located(body, tags) && 0 <= i < |tags| - 1 && Hides(body, tags, i)
    ensures var m := Close(body, tags, TagName(Tag(body, tags, i)).0, i + 1);
      Scan(body, tags, lib, i).links == Scan(body, tags, lib, m + 1).links
  {
    var m := Close(body, tags, TagName(Tag(body, tags, i)).0, i + 1);
    HideStep(body, tags, lib, i);
    NoLinksSkip(body, tags, lib, i, m + 1);
  }

  /** The turn at an opening `script` or `object` skips to the tag closing
      it. */
  lemma HideStep(body: Bytes, tags: seq<(int, int)>, lib: Library, i: int)
    requires Located(body, tags) && 0 <= i < |tags| - 1 && Hides(body, tags, i)
    ensures var m := Close(body, tags, TagName(Tag(body, tags, i)).0, i + 1);
      Step(body, tags, lib, i) == Turn(Gap(body, tags, lib, m), [], m + 1)
  {
  }

  /** A turn that finds no link and goes on at `next` adds no link. */
  lemma NoLinksSkip(body: Bytes, tags: seq<(int, int)>, lib: Library, i: int, next: int)
    requires Located(body, tags) && 0 <= i < |tags| - 1
    requires Step(body, tags, lib, i).links == [] && Step(body, tags, lib, i).next == next
    ensures Scan(body, tags, lib, i).links == Scan(body, tags, lib, next).links
  {
    ScanUnfold(body, tags, lib, i);
    assert [] + Scan(body, tags, lib, next).links == Scan(body, tags, lib, next).links;
  }

  /** Two tag lists that agree on every tag but the last, and on where the
      last one starts. */
  predicate Agree(body: Bytes, tags: seq<(int, int)>, tags': seq<(int, int)>)
  {
    Located(body, tags) && Located(body, tags') && |tags'| == |tags| &&
    (forall k :: 0 <= k < |tags| - 1 ==> tags'[k] == tags[k]) &&
    (tags != [] ==> tags'[|tags| - 1].0 == tags[|tags| - 1].0)
  }

  /** Only the start of the last tag matters: it bounds the text before
      it, and the tag itself is never read. */
  lemma {:induction false} LastTagUnread(body: Bytes, tags: seq<(int, int)>, tags': seq<(int, int)>, lib: Library, i: int)
    requires Located(body, tags) && Located(body, tags') && 0 <= i <= |tags|
    requires |tags'| == |tags| && tags' != [] && tags'[..|tags| - 1] == tags[..|tags| - 1]
    requires tags'[|tags| - 1].0 == tags[|tags| - 1].0
    ensures Scan(body, tags', lib, i) == Scan(body, tags, lib, i)
  {
    forall k | 0 <= k < |tags| - 1 ensures tags'[k] == tags[k] {
      assert tags'[..|tags| - 1][k] == tags[..|tags| - 1][k];
    }
    ScanSame(body, tags, tags', lib, i);
  }

  lemma {:induction false} ScanSame(body: Bytes, tags: seq<(int, int)>, tags': seq<(int, int)>, lib: Library, i: int)
    requires Agree(body, tags, tags') && 0 <= i <= |tags|
    ensures Scan(body, tags', lib, i) == Scan(body, tags, lib, i)
    decreases |tags| - i
  {
    if i < |tags| - 1 {
      StepSame(body, tags, tags', lib, i);
      ScanUnfold(body, tags, lib, i);
      ScanUnfold(body, tags', lib, i);
      ScanSame(body, tags, tags', lib, Step(body, tags, lib, i).next);
    }
  }

  /** A turn by its parts: the role of the tag, its link, the text after
      it, and the tag a skip would stop at with the text after that. */
  function Act(role: Role, link: Bytes, gap: Bytes, m: int, gapM: Bytes, i: int): Turn
  {
    match role
    case Link => Turn(gap, if |link| > 0 then [link] else [], i + 1)
    case Drop => Turn([], [], i + 1)
    case Hide => Turn(gapM, [], m + 1)
    case Block => Turn([TAB] + gap, [], i + 1)
    case Plain => Turn(gap, [], i + 1)
  }

  lemma StepParts(body: Bytes, tags: seq<(int, int)>, lib: Library, i: int)
    requires Located(body, tags) && 0 <= i < |tags| - 1
    ensures var m := Close(body, tags, TagName(Tag(body, tags, i)).0, i + 1);
      Step(body, tags, lib, i) ==
        Act(RoleAt(body, tags, i), GetLink(Tag(body, tags, i)), Gap(body, tags, lib, i), m, Gap(body, tags, lib, m), i)
  {
  }

  lemma StepSame(body: Bytes, tags: seq<(int, int)>, tags': seq<(int, int)>, lib: Library, i: int)
    requires Agree(body, tags, tags') && 0 <= i < |tags| - 1
    ensures Step(body, tags', lib, i) == Step(body, tags, lib, i)
  {
    TagSame(body, tags, tags', i);
    var name := TagName(Tag(body, tags, i)).0;
    CloseSame(body, tags, tags', name, i + 1);
    var m := Close(body, tags, name, i + 1);
    GapSame(body, tags, tags', lib, i);
    GapSame(body, tags, tags', lib, m);
    StepParts(body, tags, lib, i);
    StepParts(body, tags', lib, i);
  }

  lemma TagSame(body: Bytes, tags: seq<(int, int)>, tags': seq<(int, int)>, i: int)
    requires Agree(body, tags, tags') && 0 <= i < |tags| - 1
    ensures Tag(body, tags', i) == Tag(body, tags, i)
    ensures RoleAt(body, tags', i) == RoleAt(body, tags, i)
  {
    assert tags'[i] == tags[i];
  }

  lemma GapSame(body: Bytes, tags: seq<(int, int)>, tags': seq<(int, int)>, lib: Library, i: int)
    requires Agree(body, tags, tags') && 0 <= i < |tags|
    ensures Gap(body, tags', lib, i) == Gap(body, tags, lib, i)
  {
    if i < |tags| - 1 {
      assert tags'[i] == tags[i] && tags'[i + 1].0 == tags[i + 1].0;
    }
  }

  lemma {:induction false} CloseSame(body: Bytes, tags: seq<(int, int)>, tags': seq<(int, int)>, name: Bytes, k: int)
    requires Agree(body, tags, tags') && 0 <= k <= |tags| - 1
    ensures Close(body, tags', name, k) == Close(body, tags, name, k)
    decreases |tags| - k
  {
    if k < |tags| - 1 {
      TagSame(body, tags, tags', k);
      CloseSame(body, tags, tags', name, k + 1);
    }
  }

  // ---------------------------------------------------------------------
  // The loop

  /** The inner loop of the `script` case: the tag closing `name`. */
  method SkipTo(body: Bytes, tags: seq<(int, int)>, name: Bytes, from: int) returns (i: int)
    requires Located(body, tags) && 0 <= from <= |tags| - 1
    ensures i == Close(body, tags, name, from)
  {
    i := from;
    while i < |tags| - 1
      invariant from <= i <= |tags| - 1
      invariant Close(body, tags, name, i) == Close(body, tags, name, from)
      decreases |tags| - i
    {
      var tag := body[tags[i].0..tags[i].1];
      var tagName, closing := GetTagName(tag);
      if tagName == name && closing {
        break;
      }
      i := i + 1;
    }
  }

  /** `HTMLProcessTag`: append the text after tag `i` to the buffer. */
  method ProcessTag(body: Bytes, buffer: Bytes, i: int, tags: seq<(int, int)>, lib: Library) returns (buffer': Bytes)
    requires Located(body, tags) && 0 <= i
    ensures buffer' == buffer + Gap(body, tags, lib, i)
  {
    buffer' := buffer;
    if i < |tags| - 1 && tags[i + 1].0 > tags[i].1 {
      var data := body[tags[i].1..tags[i + 1].0];
      var escaped := Unescape(lib, data);
      buffer' := buffer' + escaped;
    }
  }

  lemma Regroup<T>(a: seq<T>, b: seq<T>, c: seq<T>)
    ensures a + b + c == a + (b + c)
  {
  }

  /** One turn of the loop of `HTMLProcessTags` at tag `i`; the `continue`
      of the dropped case returns early. */
  method Visit(body: Bytes, tags: seq<(int, int)>, lib: Library, i: int, buffer: Bytes, links: seq<Bytes>)
    returns (buffer': Bytes, links': seq<Bytes>, next: int)
    requires Located(body, tags) && 0 <= i < |tags| - 1
    ensures var tag := Tag(body, tags, i);
      var m := Close(body, tags, TagName(tag).0, i + 1);
      var t := Act(RoleAt(body, tags, i), GetLink(tag), Gap(body, tags, lib, i), m, Gap(body, tags, lib, m), i);
      buffer' == buffer + t.text && links' == links + t.links && next == t.next
  {
    var tag := body[tags[i].0..tags[i].1];
    var name, closing := GetTagName(tag);
    ghost var role := RoleAt(body, tags, i);
    ghost var m := Close(body, tags, name, i + 1);
    assert tag == Tag(body, tags, i) && role == RoleOf(name, closing);
    ghost var t := Act(role, GetLink(tag), Gap(body, tags, lib, i), m, Gap(body, tags, lib, m), i);
    // What is written before the text after tag `next`.
    ghost var lead: Bytes := [];
    assert buffer + [] == buffer && links + [] == links;
    buffer', links', next := buffer, links, i;
    if name == A {
      var link := GetLink(tag);
      if |link| > 0 {
        links' := links' + [link];
      }
      assert role == Link && t == Turn(Gap(body, tags, lib, i), if |link| > 0 then [link] else [], i + 1);
    } else if name == STYLE || name == IMG || name == INS {
      if !closing {
        assert role == Drop && t == Turn([], [], i + 1);
        next := i + 1;
        return;
      }
      assert role == Plain && t == Turn(Gap(body, tags, lib, i), [], i + 1);
    } else if name == SCRIPT || name == OBJECT {
      if !closing {
        next := SkipTo(body, tags, name, i + 1);
        assert role == Hide && t == Turn(Gap(body, tags, lib, m), [], m + 1);
      } else {
        assert role == Plain && t == Turn(Gap(body, tags, lib, i), [], i + 1);
      }
    } else if name in Blocks {
      buffer' := buffer' + [TAB];
      lead := [TAB];
      assert role == Block && t == Turn([TAB] + Gap(body, tags, lib, i), [], i + 1);
    } else {
      assert role == Plain && t == Turn(Gap(body, tags, lib, i), [], i + 1);
    }
    assert t.text == lead + Gap(body, tags, lib, next) && buffer' == buffer + lead;
    assert t.next == next + 1 && links' == links + t.links;
    Regroup(buffer, lead, Gap(body, tags, lib, next));
    buffer' := ProcessTag(body, buffer', next, tags, lib);
    next := next + 1;
  }

  /** `HTMLProcessTags`: go through the tags, the last excepted, writing
      the text between them and collecting the links. */
  method ProcessTags(body: Bytes, tags: seq<(int, int)>, lib: Library) returns (content: Bytes, links: seq<Bytes>)
    requires Located(body, tags)
    ensures Extracted(content, links) == Scan(body, tags, lib, 0)
  {
    var buffer: Bytes := [];
    links := [];
    var i := 0;
    while i < |tags| - 1
      invariant 0 <= i <= |tags|
      invariant var rest := Scan(body, tags, lib, i);
        Extracted(buffer + rest.content, links + rest.links) == Scan(body, tags, lib, 0)
      decreases |tags| - i
    {
      ghost var t := Step(body, tags, lib, i);
      ghost var rest := Scan(body, tags, lib, t.next);
      ScanUnfold(body, tags, lib, i);
      StepParts(body, tags, lib, i);
      ghost var before := Extracted(buffer, links);
      buffer, links, i := Visit(body, tags, lib, i, buffer, links);
      Regroup(before.content, t.text, rest.content);
      Regroup(before.links, t.links, rest.links);
    }
    content := buffer;
  }
}
