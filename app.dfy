/** The request logic of the web application (app.py): the upload
    extension whitelist, the `/analyze` status decision, the blog-id guard,
    the post-file parser and the post listing. The file system is a
    parameter: a map from file names in the `posts` directory to what
    reading that file gives. */
module App {
  import opened Strings
  import opened Selection

  // ---------------------------------------------------------------------
  // allowed_file

  const AllowedExtensions: set<string> := {"png", "jpg", "jpeg", "webp"}

  /** `allowed_file`: the name has a `.` and the text after the last `.`,
      lower-cased, is a whitelisted extension. */
  function AllowedFile(filename: string): (ok: bool)
    ensures '.' !in filename ==> !ok
  {
    match LastIndexOf(filename, '.')
    case None => false
    case Some(i) => Lower(filename[i + 1..]) in AllowedExtensions
  }

  /** Only the text after the last `.` decides, whatever comes before it
      (further dots included), and its case does not matter. */
  lemma AllowedFileExtension(stem: string, ext: string)
    requires '.' !in ext
    ensures AllowedFile(stem + "." + ext) <==> Lower(ext) in AllowedExtensions
  {
    var name := stem + "." + ext;
    var i := LastIndexOf(name, '.').value;
    assert name[|stem|] == '.';
    assert name[|stem| + 1..] == ext;
    assert forall j :: i < j < |name| ==> name[j] == name[i + 1..][j - i - 1];
    assert forall j :: |stem| < j < |name| ==> name[j] == ext[j - |stem| - 1];
    assert i == |stem|;
  }

  /** `a.b.PNG` is accepted: only `PNG` is looked at, lower-cased. */
  lemma AcceptsLastExtension()
    ensures AllowedFile("a.b.PNG")
  {
    assert "a.b.PNG" == "a.b" + "." + "PNG";
    AllowedFileExtension("a.b", "PNG");
    assert Lower("PNG") == "png";
  }

  /** A bare `png` has no `.` and is rejected. */
  lemma RejectsBareExtension()
    ensures !AllowedFile("png")
  {
    assert "png"[0] != '.' && "png"[1] != '.' && "png"[2] != '.';
  }

  // ---------------------------------------------------------------------
  // /analyze

  /** One uploaded file: its name, and what `process_image` makes of its
      bytes (the analysis, or the text of the exception it raises). */
  datatype Upload = Upload(filename: string, outcome: Result<Analysis, string>)

  datatype ReplyBody = Success(data: Analysis) | Failure(error: string)

  /** A JSON reply and its HTTP status. */
  datatype Reply = Reply(status: int, body: ReplyBody)

  const NoImageUploaded := "No image uploaded"
  const NoFileSelected := "No file selected"
  const InvalidFileType := "Invalid file type. Please upload PNG, JPG or WEBP."

  /** `analyze`: the `image` field must be present, its file name non-empty
      and its extension allowed; otherwise processing decides. */
  function Analyze(files: map<string, Upload>): (r: Reply)
    ensures r.status == 200 <==> r.body.Success?
    ensures r.status in {200, 400, 500}
  {
    if "image" !in files then Reply(400, Failure(NoImageUploaded))
    else
      var file := files["image"];
      if file.filename == "" then Reply(400, Failure(NoFileSelected))
      else if AllowedFile(file.filename) then
        match file.outcome
        case Ok(result) => Reply(200, Success(result))
        case Err(e) => Reply(500, Failure(e))
      else Reply(400, Failure(InvalidFileType))
  }

  /** The decision table of `/analyze`, checked in order: a missing field,
      then an empty name, then a disallowed extension give 400 with their
      own message; an allowed upload gives the analysis with 200 or the
      exception text with 500. */
  lemma AnalyzeDecision(files: map<string, Upload>)
    ensures "image" !in files ==> Analyze(files) == Reply(400, Failure(NoImageUploaded))
    ensures "image" in files && files["image"].filename == "" ==>
      Analyze(files) == Reply(400, Failure(NoFileSelected))
    ensures "image" in files && files["image"].filename != "" && !AllowedFile(files["image"].filename) ==>
      Analyze(files) == Reply(400, Failure(InvalidFileType))
    ensures Analyze(files).status != 400 ==>
      "image" in files && AllowedFile(files["image"].filename) &&
      match files["image"].outcome
      case Ok(a) => Analyze(files) == Reply(200, Success(a))
      case Err(e) => Analyze(files) == Reply(500, Failure(e))
  {
  }

  // ---------------------------------------------------------------------
  // blog_post

  /** What reading a file gives: it is missing (FileNotFoundError), reading
      raises something else, or it yields its decoded text with line endings
      already translated to `\n`. */
  datatype FileRead = Missing | Unreadable | Text(content: string)

  function ReadFile(dir: map<string, FileRead>, name: string): FileRead {
    if name in dir then dir[name] else Missing
  }

  datatype Post = Post(title: string, tag: string, gradient: string, content: string, readTime: string)

  datatype BlogReply = BlogReply(status: int, post: Option<Post>)

  /** The blog id guard: an id holding `..` or `/` could leave the posts
      directory. */
  predicate SafeId(id: string) {
    !Contains(id, "..") && !Contains(id, "/")
  }

  /** An id is safe exactly when it holds no `/` and no two dots in a row. */
  lemma SafeIdChars(id: string)
    ensures SafeId(id) <==> '/' !in id && forall i :: 0 <= i < |id| - 1 ==> !(id[i] == '.' && id[i + 1] == '.')
  {
    assert "/" == ['/'];
    ContainsChar(id, '/');
    if Contains(id, "..") {
      var j := Find(id, "..").value;
      var w := id[j..j + 2];
      assert w == ".." && w[0] == id[j] && w[1] == id[j + 1];
    }
    forall i | 0 <= i < |id| - 1 && id[i] == '.' && id[i + 1] == '.'
      ensures Contains(id, "..")
    {
      assert id[i..i + 2] == "..";
      ContainsAt(id, "..", i);
    }
  }

  /** The header/body split of a post file: the body is everything after the
      first `---`, stripped; title, tag and gradient are the first three lines
      of the stripped header, each stripped. None stands for the ValueError of
      a file without `---` and the IndexError of a header with fewer than
      three lines. */
  function ParsePost(content: string): (r: Option<Post>)
    ensures !Contains(content, "---") ==> r.None?
  {
    match Find(content, "---")
    case None => None
    case Some(i) => ParseParts(content[..i], content[i + 3..])
  }

  /** The header before the first `---` is stripped and split into lines;
      fewer than three lines is an error. The body after the marker is
      stripped. */
  function ParseParts(head: string, rest: string): (r: Option<Post>)
    ensures r.Some? <==> |Split(Strip(head, PyWhitespace), '\n')| >= 3
  {
    var lines := Split(Strip(head, PyWhitespace), '\n');
    if |lines| < 3 then None
    else Some(Post(Strip(lines[0], PyWhitespace), Strip(lines[1], PyWhitespace),
                   Strip(lines[2], PyWhitespace), Strip(rest, PyWhitespace), "3 min read"))
  }

  /** `blog_post(id)`: the guard answers 404 before any path is built; a
      missing file is 404, any other failure 500. */
  function BlogPost(id: string, dir: map<string, FileRead>): (r: BlogReply)
    ensures r.status == 200 || r.status == 404 || r.status == 500
    ensures r.status == 200 <==> r.post.Some?
    ensures !SafeId(id) ==> r.status == 404
    ensures SafeId(id) ==> (r.status == 404 <==> ReadFile(dir, id + ".txt").Missing?)
    ensures SafeId(id) && ReadFile(dir, id + ".txt").Text? ==>
      r.post == ParsePost(ReadFile(dir, id + ".txt").content)
    ensures SafeId(id) && ReadFile(dir, id + ".txt").Unreadable? ==> r == BlogReply(500, None)
  {
    if !SafeId(id) then BlogReply(404, None)
    else
      match ReadFile(dir, id + ".txt")
      case Missing => BlogReply(404, None)
      case Unreadable => BlogReply(500, None)
      case Text(content) =>
        match ParsePost(content)
        case None => BlogReply(500, None)
        case Some(post) => BlogReply(200, Some(post))
  }

  /** An id with `..` or `/` is answered 404 whatever the posts directory
      holds: no file is consulted. */
  lemma UnsafeIdIgnoresFiles(id: string, dir1: map<string, FileRead>, dir2: map<string, FileRead>)
    requires Contains(id, "..") || '/' in id
    ensures BlogPost(id, dir1) == BlogPost(id, dir2) == BlogReply(404, None)
  {
    ContainsChar(id, '/');
  }

  /** A readable post file whose stripped header, before the first `---`,
      has fewer than three lines gives 500 (the IndexError). */
  lemma ShortHeaderIs500(id: string, dir: map<string, FileRead>)
    requires SafeId(id)
    requires ReadFile(dir, id + ".txt").Text?
    requires var c := ReadFile(dir, id + ".txt").content;
      Find(c, "---").Some? && |Split(Strip(c[..Find(c, "---").value], PyWhitespace), '\n')| < 3
    ensures BlogPost(id, dir) == BlogReply(500, None)
  {
  }

  /** A readable post file without `---` gives 500. */
  lemma NoSeparatorIs500(id: string, dir: map<string, FileRead>)
    requires SafeId(id)
    requires ReadFile(dir, id + ".txt").Text?
    requires !Contains(ReadFile(dir, id + ".txt").content, "---")
    ensures BlogPost(id, dir) == BlogReply(500, None)
  {
  }

  /** The text of a post file laid out as the parser expects: three header
      lines, the `---` marker, then the body. */
  function PostFile(title: string, tag: string, gradient: string, body: string): string {
    PostHeader(title, tag, gradient) + ("---" + body)
  }

  /** The three header lines of a post file, each ended by a newline. */
  function PostHeader(title: string, tag: string, gradient: string): string {
    title + "\n" + tag + "\n" + gradient + "\n"
  }

  /** A header field as the parser reads it back: one line, no `---`, no
      surrounding whitespace. */
  predicate CleanField(s: string) {
    '\n' !in s && !Contains(s, "---") && Strip(s, PyWhitespace) == s
  }

  /** Parsing undoes PostFile: the three header fields come back as they
      were and the body comes back stripped. Title and gradient must not be
      empty: the header is stripped before it is split, so an empty first or
      last line would vanish and leave fewer than three lines. */
  lemma ParsePostFile(title: string, tag: string, gradient: string, body: string)
    requires CleanField(title) && CleanField(tag) && CleanField(gradient)
    requires title != [] && gradient != []
    ensures ParsePost(PostFile(title, tag, gradient, body)) ==
      Some(Post(title, tag, gradient, Strip(body, PyWhitespace), "3 min read"))
  {
    ParsePostFileHeader(title, tag, gradient, body);
    ParseHeader(title, tag, gradient, body);
  }

  /** Parsing a post file parses the header lines before its marker. */
  lemma ParsePostFileHeader(title: string, tag: string, gradient: string, body: string)
    requires !Contains(title, "---") && !Contains(tag, "---") && !Contains(gradient, "---")
    ensures ParsePost(PostFile(title, tag, gradient, body)) ==
      ParseParts(PostHeader(title, tag, gradient), body)
  {
    FindMarker(title, tag, gradient, body);
    ParseAtMarker(PostHeader(title, tag, gradient), body);
  }

  /** When the first `---` of `head + "---" + rest` is the one after
      `head`, the parser reads `head` as the header and `rest` as the body. */
  lemma ParseAtMarker(head: string, rest: string)
    requires Find(head + ("---" + rest), "---") == Some(|head|)
    ensures ParsePost(head + ("---" + rest)) == ParseParts(head, rest)
  {
    var content := head + ("---" + rest);
    assert content[..|head|] == head;
    assert content[|head| + 3..] == rest;
  }

  /** The first `---` of a post file is the marker after the header. */
  lemma FindMarker(title: string, tag: string, gradient: string, body: string)
    requires !Contains(title, "---") && !Contains(tag, "---") && !Contains(gradient, "---")
    ensures Find(PostFile(title, tag, gradient, body), "---") == Some(|PostHeader(title, tag, gradient)|)
  {
    var h := PostHeader(title, tag, gradient);
    var b := "---" + body;
    assert StartsWith(b, "---") by {
      assert b[..3] == "---";
    }
    assert h[|h| - 1] == '\n' && '\n' !in "---";
    HeaderHasNoMarker(title, tag, gradient);
    FindAfter(h, b, "---");
  }

  /** The header part of a post file parses back to its three fields. */
  lemma ParseHeader(title: string, tag: string, gradient: string, body: string)
    requires CleanField(title) && CleanField(tag) && CleanField(gradient)
    requires title != [] && gradient != []
    ensures ParseParts(PostHeader(title, tag, gradient), body) ==
      Some(Post(title, tag, gradient, Strip(body, PyWhitespace), "3 min read"))
  {
    CleanFieldEnds(title);
    CleanFieldEnds(gradient);
    StripHeader(title, tag, gradient);
    SplitHeader(title, tag, gradient);
  }

  lemma HeaderHasNoMarker(title: string, tag: string, gradient: string)
    requires !Contains(title, "---") && !Contains(tag, "---") && !Contains(gradient, "---")
    ensures !Contains(PostHeader(title, tag, gradient), "---")
  {
    var ht := title + "\n" + tag;
    var header := ht + "\n" + gradient;
    assert ht == title + ['\n'] + tag;
    assert header == ht + ['\n'] + gradient;
    assert header + "\n" == header + ['\n'] + [];
    ContainsAround(title, tag, '\n', "---");
    ContainsAround(ht, gradient, '\n', "---");
    ContainsAround(header, [], '\n', "---");
  }

  lemma StripHeader(title: string, tag: string, gradient: string)
    requires title != [] && gradient != []
    requires title[0] !in PyWhitespace && gradient[|gradient| - 1] !in PyWhitespace
    ensures Strip(title + "\n" + tag + "\n" + gradient + "\n", PyWhitespace) == title + "\n" + tag + "\n" + gradient
  {
    var header := title + "\n" + tag + "\n" + gradient;
    assert header[0] == title[0] && header[|header| - 1] == gradient[|gradient| - 1];
    StripTrailing(header, '\n', PyWhitespace);
    assert header + "\n" == header + ['\n'];
  }

  lemma CleanFieldEnds(s: string)
    requires s != [] && Strip(s, PyWhitespace) == s
    ensures s[0] !in PyWhitespace && s[|s| - 1] !in PyWhitespace
  {
  }

  lemma SplitHeader(title: string, tag: string, gradient: string)
    requires '\n' !in title && '\n' !in tag && '\n' !in gradient
    ensures Split(title + "\n" + tag + "\n" + gradient, '\n') == [title, tag, gradient]
  {
    SplitNoSep(title, '\n');
    SplitNoSep(tag, '\n');
    SplitNoSep(gradient, '\n');
    SplitAround(title, tag, '\n');
    var ht := title + "\n" + tag;
    assert ht == title + ['\n'] + tag;
    SplitAround(ht, gradient, '\n');
    assert ht + "\n" + gradient == ht + ['\n'] + gradient;
  }

  /** When `pat` does not occur in `a` nor straddle its end, the first
      occurrence in `a + b` is where `b` starts with it. */
  lemma {:induction false} FindAfter(a: string, b: string, pat: string)
    requires StartsWith(b, pat) && !Contains(a, pat)
    requires a != [] ==> a[|a| - 1] !in pat
    ensures Find(a + b, pat) == Some(|a|)
    decreases |a|
  {
    if a != [] {
      NotStartingIn(a, b, pat);
      assert (a + b)[1..] == a[1..] + b;
      if a[1..] != [] {
        assert a[1..][|a[1..]| - 1] == a[|a| - 1];
      }
      FindAfter(a[1..], b, pat);
    } else {
      assert a + b == b;
    }
  }

  /** Under the same conditions `a + b` does not start with `pat`. */
  lemma NotStartingIn(a: string, b: string, pat: string)
    requires a != [] && !Contains(a, pat) && a[|a| - 1] !in pat
    ensures !StartsWith(a + b, pat)
  {
    var s := a + b;
    if |pat| <= |a| {
      assert s[..|pat|] == a[..|pat|];
    } else {
      assert s[|a| - 1] == a[|a| - 1] && pat[|a| - 1] in pat;
    }
  }

  /** Stripping `s + [w]`, where `w` is stripped and `s` starts and ends
      with characters that are not, gives `s`. */
  lemma StripTrailing(s: string, w: char, ws: set<char>)
    requires w in ws
    requires s != [] && s[0] !in ws && s[|s| - 1] !in ws
    ensures Strip(s + [w], ws) == s
  {
    var t := s + [w];
    assert SkipForward(t, ws, 0) == 0;
    assert SkipBackward(t, ws, 0, |s|) == |s|;
    assert t[..|s|] == s;
  }

  // ---------------------------------------------------------------------
  // get_all_posts

  /** One entry of the post listing. */
  datatype PostSummary = PostSummary(id: string, title: string, tag: string, gradient: string)

  /** Every earlier name sorts before or equal to every later one. */
  predicate SortedNames(s: seq<string>) {
    forall i :: 0 <= i < |s| - 1 ==> LexLe(s[i], s[i + 1])
  }

  function InsertName(x: string, s: seq<string>): (r: seq<string>)
    ensures multiset(r) == multiset(s) + multiset{x}
    ensures r != [] && (r[0] == x || (s != [] && r[0] == s[0]))
  {
    if s == [] || LexLe(x, s[0]) then [x] + s
    else
      assert s == [s[0]] + s[1..];
      [s[0]] + InsertName(x, s[1..])
  }

  /** Inserting into a sorted list keeps it sorted. */
  lemma {:induction false} InsertNameSorted(x: string, s: seq<string>)
    requires SortedNames(s)
    ensures SortedNames(InsertName(x, s))
  {
    if s != [] && !LexLe(x, s[0]) {
      var t := s[1..];
      assert SortedNames(t) by {
        forall i | 0 <= i < |t| - 1 ensures LexLe(t[i], t[i + 1]) {
          assert t[i] == s[i + 1] && t[i + 1] == s[i + 2];
        }
      }
      InsertNameSorted(x, t);
      LexLeTotal(x, s[0]);
      var rest := InsertName(x, t);
      assert LexLe(s[0], rest[0]) by {
        if rest[0] != x {
          assert rest[0] == t[0] == s[1];
        }
      }
      ConsSorted(s[0], rest);
    }
  }

  lemma ConsSorted(a: string, rest: seq<string>)
    requires SortedNames(rest) && rest != [] && LexLe(a, rest[0])
    ensures SortedNames([a] + rest)
  {
    var r := [a] + rest;
    forall i | 0 <= i < |r| - 1 ensures LexLe(r[i], r[i + 1]) {
      if i > 0 {
        assert r[i] == rest[i - 1] && r[i + 1] == rest[i];
      }
    }
  }

  /** `sorted(names)`: by code point, as Python compares strings. */
  function SortNames(names: seq<string>): (r: seq<string>)
    ensures SortedNames(r)
    ensures multiset(r) == multiset(names)
  {
    if names == [] then []
    else
      assert names == [names[0]] + names[1..];
      InsertNameSorted(names[0], SortNames(names[1..]));
      InsertName(names[0], SortNames(names[1..]))
  }

  /** The post id of a listed file: every `.txt` removed. */
  function PostId(filename: string): (id: string)
    ensures |id| <= |filename|
    ensures EndsWith(filename, ".txt") && '.' !in filename[..|filename| - 4] ==>
      id == filename[..|filename| - 4]
  {
    if EndsWith(filename, ".txt") && '.' !in filename[..|filename| - 4] then
      var stem := filename[..|filename| - 4];
      assert filename == stem + ".txt";
      RemoveAllSuffix(stem, ".txt");
      RemoveAll(filename, ".txt")
    else RemoveAll(filename, ".txt")
  }

  /** Line `i` of a text, as the `i`-th `readline()` returns it, stripped;
      past the end `readline()` gives the empty string. */
  function StrippedLine(text: string, i: nat): (line: string)
    ensures '\n' !in line
    ensures line == [] || (line[0] !in PyWhitespace && line[|line| - 1] !in PyWhitespace)
  {
    var lines := Split(text, '\n');
    if i < |lines| then
      SplitPieces(text, '\n');
      StripSlice(lines[i], PyWhitespace);
      Strip(lines[i], PyWhitespace)
    else ""
  }

  /** The listing entry for one file name, or None when it is skipped: it
      does not end in `.txt`, or reading it raises. */
  function Entry(filename: string, dir: map<string, FileRead>): (e: Option<PostSummary>)
    ensures e.Some? <==> EndsWith(filename, ".txt") && ReadFile(dir, filename).Text?
    ensures e.Some? ==> e.value.id == PostId(filename)
  {
    if !EndsWith(filename, ".txt") then None
    else
      match ReadFile(dir, filename)
      case Text(text) =>
        Some(PostSummary(PostId(filename), StrippedLine(text, 0), StrippedLine(text, 1), StrippedLine(text, 2)))
      case _ => None
  }

  /** The listing built from the names in the given order. */
  function Listing(names: seq<string>, dir: map<string, FileRead>): (r: seq<PostSummary>)
    ensures |r| <= |names|
  {
    if names == [] then []
    else
      var init := Listing(names[..|names| - 1], dir);
      match Entry(names[|names| - 1], dir)
      case Some(e) => init + [e]
      case None => init
  }

  /** `get_all_posts`: the directory's names in sorted order, each `.txt`
      file that can be read giving one entry. */
  method GetAllPosts(names: seq<string>, dir: map<string, FileRead>) returns (posts: seq<PostSummary>)
    ensures posts == Listing(SortNames(names), dir)
  {
    posts := [];
    var files := SortNames(names);
    for i := 0 to |files|
      invariant posts == Listing(files[..i], dir)
    {
      var filename := files[i];
      ListingSnoc(files, i, dir);
      if EndsWith(filename, ".txt") {
        var postId := RemoveAll(filename, ".txt");
        match ReadFile(dir, filename)
        case Text(text) =>
          posts := posts + [PostSummary(postId, StrippedLine(text, 0), StrippedLine(text, 1), StrippedLine(text, 2))];
        case _ =>
      }
    }
    assert files[..|files|] == files;
  }

  /** The listing of one more name is the listing so far and that name's entry. */
  lemma ListingSnoc(names: seq<string>, i: nat, dir: map<string, FileRead>)
    requires i < |names|
    ensures Listing(names[..i + 1], dir) ==
      match Entry(names[i], dir)
      case Some(e) => Listing(names[..i], dir) + [e]
      case None => Listing(names[..i], dir)
  {
    assert names[..i + 1][..i] == names[..i];
  }

  /** Every listed entry comes from a readable `.txt` name of the directory,
      with the id that name gives. */
  lemma {:induction false} ListingFromTxtFiles(names: seq<string>, dir: map<string, FileRead>)
    ensures forall p :: p in Listing(names, dir) ==>
      exists f :: f in names && EndsWith(f, ".txt") && ReadFile(dir, f).Text? && p.id == PostId(f)
  {
    if names != [] {
      var init := names[..|names| - 1];
      ListingFromTxtFiles(init, dir);
      forall p | p in Listing(names, dir)
        ensures exists f :: f in names && EndsWith(f, ".txt") && ReadFile(dir, f).Text? && p.id == PostId(f)
      {
        if p in Listing(init, dir) {
          var f :| f in init && EndsWith(f, ".txt") && ReadFile(dir, f).Text? && p.id == PostId(f);
          assert f in names;
        } else {
          assert names[|names| - 1] in names;
        }
      }
    }
  }

  /** The positions of the names that give an entry, in increasing order. */
  function ListedIndices(names: seq<string>, dir: map<string, FileRead>): seq<nat>
  {
    if names == [] then []
    else
      var n := |names| - 1;
      ListedIndices(names[..n], dir) + (if Entry(names[n], dir).Some? then [n] else [])
  }

  /** `listing` holds exactly one entry per name that gives one, in the
      order of the names: entry `k` is the entry of name `m[k]`, the indices
      in `m` increase, and every name that gives an entry is among them. */
  predicate ListsEntriesAt(listing: seq<PostSummary>, m: seq<nat>, names: seq<string>, dir: map<string, FileRead>) {
    |m| == |listing| &&
    (forall k :: 0 <= k < |m| ==> m[k] < |names| && Entry(names[m[k]], dir) == Some(listing[k])) &&
    (forall k, l :: 0 <= k < l < |m| ==> m[k] < m[l]) &&
    (forall j :: 0 <= j < |names| && Entry(names[j], dir).Some? ==> j in m)
  }

  /** The listing of the names is exactly their entries, in order. */
  lemma {:induction false} ListingEntries(names: seq<string>, dir: map<string, FileRead>)
    ensures ListsEntriesAt(Listing(names, dir), ListedIndices(names, dir), names, dir)
  {
    if names != [] {
      var n := |names| - 1;
      ListingEntries(names[..n], dir);
      ListsEntriesStep(Listing(names[..n], dir), ListedIndices(names[..n], dir), names, dir);
    }
  }

  /** One more name extends the listing by its entry, if it gives one. */
  lemma ListsEntriesStep(l0: seq<PostSummary>, m0: seq<nat>, names: seq<string>, dir: map<string, FileRead>)
    requires names != [] && ListsEntriesAt(l0, m0, names[..|names| - 1], dir)
    ensures var n := |names| - 1;
      match Entry(names[n], dir)
      case Some(e) => ListsEntriesAt(l0 + [e], m0 + [n], names, dir)
      case None => ListsEntriesAt(l0, m0, names, dir)
  {
    ListsEntriesWiden(l0, m0, names, dir);
    var n := |names| - 1;
    match Entry(names[n], dir)
    case Some(e) => ListsEntriesSome(l0, m0, names, dir, e);
    case None =>
  }

  lemma ListsEntriesSome(l0: seq<PostSummary>, m0: seq<nat>, names: seq<string>, dir: map<string, FileRead>, e: PostSummary)
    requires names != [] && Entry(names[|names| - 1], dir) == Some(e)
    requires |m0| == |l0|
    requires forall k :: 0 <= k < |m0| ==> m0[k] < |names| - 1 && Entry(names[m0[k]], dir) == Some(l0[k])
    requires forall k, l :: 0 <= k < l < |m0| ==> m0[k] < m0[l]
    requires forall j :: 0 <= j < |names| - 1 && Entry(names[j], dir).Some? ==> j in m0
    ensures ListsEntriesAt(l0 + [e], m0 + [|names| - 1], names, dir)
  {
    var n := |names| - 1;
    var l, m := l0 + [e], m0 + [n];
    forall k | 0 <= k < |m|
      ensures m[k] < |names| && Entry(names[m[k]], dir) == Some(l[k])
    {
      if k < |m0| {
        assert m[k] == m0[k] && l[k] == l0[k];
      }
    }
    forall k, i | 0 <= k < i < |m|
      ensures m[k] < m[i]
    {
      assert m[k] == m0[k];
    }
    forall j | 0 <= j < |names| && Entry(names[j], dir).Some?
      ensures j in m
    {
      if j < n {
        assert j in m0;
      } else {
        assert m[|m0|] == j;
      }
    }
  }

  /** The facts about the first names carry over to the longer list, with
      the last name's index above every listed one. */
  lemma ListsEntriesWiden(l0: seq<PostSummary>, m0: seq<nat>, names: seq<string>, dir: map<string, FileRead>)
    requires names != [] && ListsEntriesAt(l0, m0, names[..|names| - 1], dir)
    ensures var n := |names| - 1;
      |m0| == |l0| &&
      (forall k :: 0 <= k < |m0| ==> m0[k] < n && Entry(names[m0[k]], dir) == Some(l0[k])) &&
      (forall k, l :: 0 <= k < l < |m0| ==> m0[k] < m0[l]) &&
      (forall j :: 0 <= j < n && Entry(names[j], dir).Some? ==> j in m0)
  {
    var n := |names| - 1;
    var init := names[..n];
    forall k | 0 <= k < |m0|
      ensures m0[k] < n && Entry(names[m0[k]], dir) == Some(l0[k])
    {
      assert names[m0[k]] == init[m0[k]];
    }
    forall j | 0 <= j < n && Entry(names[j], dir).Some?
      ensures j in m0
    {
      assert names[j] == init[j];
    }
  }

  /** A post file named `stem.txt`, with no `.` or `/` in the stem, is
      listed under the id `stem`, and the blog page for that id reads the
      same file. */
  lemma ListedIdLinksBack(stem: string, dir: map<string, FileRead>)
    requires '.' !in stem && '/' !in stem
    ensures PostId(stem + ".txt") == stem
    ensures SafeId(stem)
    ensures var r := BlogPost(stem, dir);
      match ReadFile(dir, stem + ".txt")
      case Missing => r == BlogReply(404, None)
      case Unreadable => r == BlogReply(500, None)
      case Text(c) => r == (match ParsePost(c) case None => BlogReply(500, None) case Some(p) => BlogReply(200, Some(p)))
  {
    RemoveAllSuffix(stem, ".txt");
    ContainsChar(stem, '/');
    assert !Contains(stem, "..") by {
      ContainsChar(stem, '.');
      NoDotNoDots(stem);
    }
  }

  lemma {:induction false} NoDotNoDots(s: string)
    requires !Contains(s, ".")
    ensures !Contains(s, "..")
  {
    if s != [] {
      NoDotNoDots(s[1..]);
      assert |s| >= 2 ==> s[..1] == s[..2][..1];
    }
  }
}
