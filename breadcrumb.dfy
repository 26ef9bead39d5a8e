/** The breadcrumb trail: the location's path cut into segments, one crumb
    per segment linking to the path up to it, and a label per crumb. */
module BreadCrumb {
  import opened Text

  /** One entry of the trail. `isLink` is false only for the last crumb,
      which is shown as plain text. */
  datatype Crumb = Crumb(to: string, caption: string, isLink: bool)

  /** The pieces that are not empty, in order (`filter((x) => x)`). */
  function NonEmpty(parts: seq<string>): (r: seq<string>)
    ensures |r| <= |parts|
    ensures forall i :: 0 <= i < |r| ==> r[i] != []
    ensures forall x :: x in r <==> x in parts && x != []
  {
    if parts == [] then []
    else if parts[0] == [] then NonEmpty(parts[1..])
    else [parts[0]] + NonEmpty(parts[1..])
  }

  /** Dropping empty pieces distributes over concatenation. */
  lemma {:induction false} NonEmptyAppend(a: seq<string>, b: seq<string>)
    ensures NonEmpty(a + b) == NonEmpty(a) + NonEmpty(b)
  {
    if a != [] {
      assert (a + b)[1..] == a[1..] + b;
      NonEmptyAppend(a[1..], b);
    } else {
      assert a + b == b;
    }
  }

  /** A list with no empty piece is kept whole. */
  lemma {:induction false} NonEmptyKeepsAll(parts: seq<string>)
    requires forall i :: 0 <= i < |parts| ==> parts[i] != []
    ensures NonEmpty(parts) == parts
  {
    if parts != [] {
      NonEmptyKeepsAll(parts[1..]);
    }
  }

  /** `pathname.split("/").filter((x) => x)`. */
  function Pathnames(pathname: string): (segments: seq<string>)
    ensures forall i :: 0 <= i < |segments| ==> segments[i] != [] && '/' !in segments[i]
  {
    var parts := Split(pathname, '/');
    var segments := NonEmpty(parts);
    assert forall i :: 0 <= i < |segments| ==> segments[i] in parts;
    segments
  }

  /** Segments with no '/' and none empty, written as "/a/b/c", come back as
      the same segments. */
  lemma PathnamesOfCanonical(segments: seq<string>)
    requires |segments| >= 1
    requires forall i :: 0 <= i < |segments| ==> segments[i] != [] && '/' !in segments[i]
    ensures Pathnames("/" + Join(segments, '/')) == segments
  {
    var parts := [""] + segments;
    assert parts[1..] == segments;
    assert Join(parts, '/') == "/" + Join(segments, '/');
    SplitJoin(parts, '/');
    NonEmptyKeepsAll(segments);
  }

  /** Joining one more piece adds a separator and the piece. */
  lemma JoinAppend(parts: seq<string>, x: string, sep: char)
    requires |parts| >= 1
    ensures Join(parts + [x], sep) == Join(parts, sep) + [sep] + x
  {
    var q := parts + [x];
    JoinPrefixStep(q, sep, |parts|);
    assert q[..|parts| + 1] == q;
    assert q[..|parts|] == parts;
  }

  /** A slash at the end of the path changes nothing. */
  lemma TrailingSlashIgnored(pathname: string)
    ensures Pathnames(pathname + "/") == Pathnames(pathname)
  {
    var parts := Split(pathname, '/');
    JoinSplit(pathname, '/');
    JoinAppend(parts, "", '/');
    assert Join(parts + [""], '/') == pathname + "/";
    assert forall i :: 0 <= i < |parts + [""]| ==> '/' !in (parts + [""])[i];
    SplitJoin(parts + [""], '/');
    NonEmptyAppend(parts, [""]);
    assert NonEmpty([""]) == [];
  }

  /** `path.split("?")[0]`: the segment up to its first '?'. */
  function CleanSegment(segment: string): (clean: string)
    ensures clean <= segment && '?' !in clean
    ensures '?' !in segment ==> clean == segment
    ensures '?' in segment ==> clean == segment[..IndexOf(segment, '?')]
  {
    var parts := Split(segment, '?');
    if '?' !in segment then
      SplitJoin([segment], '?');
      assert Join([segment], '?') == segment;
      parts[0]
    else
      var k := IndexOf(segment, '?');
      assert parts == [segment[..k]] + Split(segment[k + 1..], '?');
      parts[0]
  }

  /** `cleanPathnames`: every segment cut at its '?'. */
  function Clean(segments: seq<string>): (clean: seq<string>)
    ensures |clean| == |segments|
  {
    seq(|segments|, i requires 0 <= i < |segments| => CleanSegment(segments[i]))
  }

  // --------------------------------------------------------------- labels

  /** The fixed route labels of `getLabel`. */
  const Labels: map<string, string> := map[
    "dashboard" := "Dashboard", "books" := "Books", "students" := "Students",
    "borrowings" := "Borrowings", "calendar" := "Calendar", "reports" := "Reports",
    "analytics" := "Analytics", "settings" := "Settings", "profile" := "Profile",
    "library" := "Library", "my-books" := "My Books", "history" := "History",
    "help" := "Help", "checkout" := "Check In/Out", "signin" := "Sign In",
    "signup" := "Sign Up"
  ]

  /** `path.charAt(0).toUpperCase() + path.slice(1)`. */
  function Capitalize(path: string): (r: string)
    ensures |r| == |path|
    ensures path != [] ==> r[0] == UpperChar(path[0]) && r[1..] == path[1..]
  {
    if path == [] then [] else [UpperChar(path[0])] + path[1..]
  }

  /** `labels[key] || fallback`: every label in the table is non-empty. */
  function LookUp(key: string, fallback: string): (r: string)
    ensures key in Labels ==> r == Labels[key]
    ensures key !in Labels ==> r == fallback
  {
    if key in Labels then Labels[key] else fallback
  }

  /** The singular case: the segment is the second-to-last raw segment and
      the last raw segment is a number. */
  predicate Singular(path: string, pathnames: seq<string>) {
    |pathnames| >= 2 && pathnames[|pathnames| - 2] == path && IsNumeric(pathnames[|pathnames| - 1])
  }

  /** `path.slice(0, -1)`. */
  function DropLast(path: string): string {
    if path == [] then [] else path[..|path| - 1]
  }

  /** `getLabel(path)` over the raw segments `pathnames`. */
  function GetLabel(path: string, pathnames: seq<string>): (caption: string)
    ensures caption == Capitalize(path) || caption in Labels.Values
  {
    if Singular(path, pathnames) then LookUp(DropLast(path), Capitalize(path))
    else LookUp(path, Capitalize(path))
  }

  /** The label is the table's entry for the segment, or in the singular
      case for the segment without its last character, and otherwise the
      capitalised segment. */
  lemma LabelCases(path: string, pathnames: seq<string>)
    ensures (if Singular(path, pathnames) then DropLast(path) !in Labels else path !in Labels) ==>
      GetLabel(path, pathnames) == Capitalize(path)
    ensures !Singular(path, pathnames) && path in Labels ==> GetLabel(path, pathnames) == Labels[path]
    ensures Singular(path, pathnames) && DropLast(path) in Labels ==>
      GetLabel(path, pathnames) == Labels[DropLast(path)]
  {
  }

  /** Every label in the table is non-empty. */
  lemma TableLabelsNonEmpty(key: string)
    requires key in Labels
    ensures Labels[key] != []
  {
  }

  /** A non-empty segment gets a non-empty label. */
  lemma LabelNonEmpty(path: string, pathnames: seq<string>)
    requires path != []
    ensures GetLabel(path, pathnames) != []
  {
    var key := if Singular(path, pathnames) then DropLast(path) else path;
    if key in Labels {
      TableLabelsNonEmpty(key);
    }
  }

  // --------------------------------------------------------------- crumbs

  /** `"/" + clean.slice(0, i + 1).join("/")`. */
  function LinkTo(clean: seq<string>, i: nat): (link: string)
    requires i < |clean|
    ensures link != [] && link[0] == '/'
  {
    "/" + Join(clean[..i + 1], '/')
  }

  /** The crumbs for the raw segments `pathnames`. */
  function CrumbsOf(pathnames: seq<string>): (crumbs: seq<Crumb>)
    ensures |crumbs| == |pathnames|
  {
    var clean := Clean(pathnames);
    seq(|clean|, i requires 0 <= i < |clean| =>
      Crumb(LinkTo(clean, i), GetLabel(clean[i], pathnames), i != |clean| - 1))
  }

  /** The crumbs after the home icon for the location's pathname. */
  function Crumbs(pathname: string): (crumbs: seq<Crumb>)
    ensures |crumbs| == |Pathnames(pathname)|
  {
    CrumbsOf(Pathnames(pathname))
  }

  /** A chevron follows the home icon exactly when there is a crumb. */
  function ShowSeparator(pathname: string): (show: bool)
    ensures show <==> Crumbs(pathname) != []
  {
    |Clean(Pathnames(pathname))| > 0
  }

  /** Every crumb but the last is a link. */
  lemma OnlyLastCrumbIsText(pathnames: seq<string>)
    ensures forall i :: 0 <= i < |CrumbsOf(pathnames)| ==> (CrumbsOf(pathnames)[i].isLink <==> i < |pathnames| - 1)
  {
  }

  /** Each crumb's caption is the label of its clean segment. */
  lemma CrumbCaptions(pathnames: seq<string>)
    ensures forall i :: 0 <= i < |CrumbsOf(pathnames)| ==>
      CrumbsOf(pathnames)[i].caption == GetLabel(CleanSegment(pathnames[i]), pathnames)
  {
  }

  /** The link and the kind of the crumb at position i. */
  lemma CrumbFields(pathnames: seq<string>, i: nat)
    requires i < |pathnames|
    ensures CrumbsOf(pathnames)[i].to == LinkTo(Clean(pathnames), i)
    ensures CrumbsOf(pathnames)[i].isLink == (i != |pathnames| - 1)
  {
  }

  /** The first crumb links to its own clean segment, and each further one
      extends the previous link by "/" and its own clean segment. */
  lemma CrumbLinksExtend(pathnames: seq<string>)
    ensures CrumbsOf(pathnames) != [] ==> CrumbsOf(pathnames)[0].to == "/" + CleanSegment(pathnames[0])
    ensures forall i :: 0 < i < |CrumbsOf(pathnames)| ==>
      CrumbsOf(pathnames)[i].to == CrumbsOf(pathnames)[i - 1].to + "/" + CleanSegment(pathnames[i])
  {
    var crumbs := CrumbsOf(pathnames);
    var clean := Clean(pathnames);
    if crumbs != [] {
      assert clean[..1] == [clean[0]];
    }
    forall i | 0 < i < |crumbs|
      ensures LinkTo(clean, i) == LinkTo(clean, i - 1) + "/" + clean[i]
    {
      JoinPrefixStep(clean, '/', i);
    }
  }

  /** Without '?' in it, a path "/a/b/c" of non-empty segments is the link
      of its own last crumb. */
  lemma LastCrumbIsThePath(segments: seq<string>)
    requires |segments| >= 1
    requires forall i :: 0 <= i < |segments| ==> segments[i] != [] && '/' !in segments[i] && '?' !in segments[i]
    ensures |Crumbs("/" + Join(segments, '/'))| == |segments|
    ensures Crumbs("/" + Join(segments, '/'))[|segments| - 1].to == "/" + Join(segments, '/')
    ensures !Crumbs("/" + Join(segments, '/'))[|segments| - 1].isLink
  {
    PathnamesOfCanonical(segments);
    FullLink(segments);
    LastCrumbLink(segments, "/" + Join(segments, '/'));
  }

  /** The last crumb is plain text linking to what LinkTo gives for the
      last position. */
  lemma LastCrumbLink(segments: seq<string>, link: string)
    requires |segments| >= 1
    requires LinkTo(Clean(segments), |segments| - 1) == link
    ensures CrumbsOf(segments)[|segments| - 1].to == link
    ensures !CrumbsOf(segments)[|segments| - 1].isLink
  {
    CrumbFields(segments, |segments| - 1);
  }


  /** Segments without '?' are their own clean segments. */
  lemma CleanWithoutQuery(segments: seq<string>)
    requires forall i :: 0 <= i < |segments| ==> '?' !in segments[i]
    ensures Clean(segments) == segments
  {
  }

  /** Without '?' in any segment, the link of the last position is all the
      segments joined. */
  lemma FullLink(segments: seq<string>)
    requires |segments| >= 1
    requires forall i :: 0 <= i < |segments| ==> '?' !in segments[i]
    ensures LinkTo(Clean(segments), |segments| - 1) == "/" + Join(segments, '/')
  {
    CleanWithoutQuery(segments);
    assert segments[..|segments|] == segments;
  }

  /** On any path whose last two raw segments are the segment and a run
      of digits, the segment is in the singular case. */
  lemma SingularBeforeDigits(prefix: seq<string>, path: string, last: string)
    requires IsDigits(last)
    ensures Singular(path, prefix + [path, last])
  {
    DigitsAreNumeric(last);
  }

  /** On any path whose last two raw segments are the segment and a
      number, the label is looked up without the segment's last
      character, falling back to the capitalised segment itself. */
  lemma SingularLabel(prefix: seq<string>, path: string, last: string)
    requires IsNumeric(last)
    ensures GetLabel(path, prefix + [path, last]) == LookUp(DropLast(path), Capitalize(path))
  {
    var pathnames := prefix + [path, last];
    assert pathnames[|pathnames| - 2] == path && pathnames[|pathnames| - 1] == last;
  }

  /** Outside the singular case the segment itself is looked up. */
  lemma PlainLabel(path: string, before: string, last: string)
    requires before != path
    ensures GetLabel(path, [before, last]) == LookUp(path, Capitalize(path))
  {
  }

  /** On "/books/42" the segment "42" reads "42". */
  lemma FortyTwoCaption()
    ensures GetLabel("42", ["books", "42"]) == "42"
  {
    PlainLabel("42", "books", "42");
    assert Capitalize("42") == "42";
  }

  /** On "/books/42" the segment "books" reads "Books" and "42" reads "42". */
  lemma BookDetailCaptions()
    ensures GetLabel("books", ["books", "42"]) == "Books"
    ensures GetLabel("42", ["books", "42"]) == "42"
  {
    assert LookUp(DropLast("books"), Capitalize("books")) == "Books" by {
      assert DropLast("books") == "book";
    }
    assert GetLabel("books", [] + ["books", "42"]) == "Books" by {
      DigitsAreNumeric("42");
      SingularLabel([], "books", "42");
    }
    assert [] + ["books", "42"] == ["books", "42"];
    FortyTwoCaption();
  }

  /** Two segments without '?': the first links to "/a" and is a link, the
      second links to "/a/b" and is plain text. */
  lemma TwoCrumbs(x: string, y: string)
    requires '?' !in x && '?' !in y
    ensures CrumbsOf([x, y]) ==
      [Crumb("/" + x, GetLabel(x, [x, y]), true), Crumb("/" + x + "/" + y, GetLabel(y, [x, y]), false)]
  {
    var segments := [x, y];
    var clean := Clean(segments);
    assert clean == segments;
    assert clean[..1] == [x];
    assert clean[..2] == segments;
    assert Join([x, y], '/') == x + "/" + y by {
      assert [x, y][1..] == [y];
    }
    assert LinkTo(clean, 1) == "/" + (x + "/" + y);
    assert "/" + (x + "/" + y) == "/" + x + "/" + y;
    var crumbs := CrumbsOf(segments);
    assert crumbs[0] == Crumb("/" + x, GetLabel(x, segments), true);
    assert crumbs[1] == Crumb(LinkTo(clean, 1), GetLabel(y, segments), false);
  }

  /** The crumbs for the segments "books", "42". */
  lemma BookDetailCrumbs()
    ensures CrumbsOf(["books", "42"]) == [Crumb("/books", "Books", true), Crumb("/books/42", "42", false)]
  {
    assert "/" + "books" == "/books";
    assert "/" + "books" + "/" + "42" == "/books/42";
    TwoCrumbs("books", "42");
    BookDetailCaptions();
  }

  /** A book detail page, "/books/42", shows a link "Books" to "/books" and
      the plain text "42". */
  lemma BookDetailTrail()
    ensures Crumbs("/books/42") == [Crumb("/books", "Books", true), Crumb("/books/42", "42", false)]
  {
    var segments := ["books", "42"];
    assert "/" + Join(segments, '/') == "/books/42";
    PathnamesOfCanonical(segments);
    BookDetailCrumbs();
  }

  /** The singular case skips the table for the segment itself: under
      "/my-books/3" the crumb reads "My-books", while "/my-books" reads
      "My Books". */
  lemma SingularCaseSkipsTable()
    ensures GetLabel("my-books", ["my-books", "3"]) == "My-books"
    ensures GetLabel("my-books", ["my-books"]) == "My Books"
  {
    assert LookUp(DropLast("my-books"), Capitalize("my-books")) == "My-books" by {
      assert DropLast("my-books") == "my-book";
      assert Capitalize("my-books") == "My-books";
    }
    assert GetLabel("my-books", [] + ["my-books", "3"]) == "My-books" by {
      DigitsAreNumeric("3");
      SingularLabel([], "my-books", "3");
    }
    assert [] + ["my-books", "3"] == ["my-books", "3"];
  }
}
