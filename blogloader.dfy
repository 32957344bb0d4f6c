/**
  The blog loader (client/src/lib/blogLoader.ts): front matter is read from the top of each
  markdown file, files whose front matter lacks a slug or a title are dropped, and the posts
  are ordered newest first.

  Front-matter values are whatever the parser produced: a string, or a list when the value was
  written in brackets. The post fields keep that shape, as the JavaScript objects do.
*/
module BlogLoader {
  import opened Wrappers
  import opened Text
  import Sorting

  datatype MetaValue = MStr(text: string) | MList(items: seq<string>)

  type Meta = map<string, MetaValue>

  /** What `parseFrontmatter` returns: `meta` is `None` for `null`. */
  datatype Parsed = Parsed(meta: Option<Meta>, body: string)

  datatype Post = Post(slug: MetaValue, title: MetaValue, date: MetaValue, tags: MetaValue, content: string)

  // ---- the front-matter block: /^---\n([\s\S]*?)\n---\n?/ ----

  /** The text starts with the opening marker "---" and a newline. */
  predicate Opens(raw: string) {
    |raw| >= 4 && raw[0] == '-' && raw[1] == '-' && raw[2] == '-' && raw[3] == '\n'
  }

  /** A newline and the closing marker "---" start at position j. */
  predicate ClosesAt(raw: string, j: int) {
    0 <= j && j + 4 <= |raw| && raw[j] == '\n' && raw[j + 1] == '-' && raw[j + 2] == '-' && raw[j + 3] == '-'
  }

  /** The first closing marker at or after `from`, or -1: the lazy `*?` stops at the first one. */
  function FindClose(raw: string, from: nat): (j: int)
    ensures j >= 0 ==> from <= j && ClosesAt(raw, j) && forall k :: from <= k < j ==> !ClosesAt(raw, k)
    ensures j < 0 ==> forall k :: from <= k ==> !ClosesAt(raw, k)
    decreases |raw| - from
  {
    if from + 4 > |raw| then -1
    else if ClosesAt(raw, from) then from
    else FindClose(raw, from + 1)
  }

  // ---- one line of front matter: /^([^:]+):\s*(.*)$/ ----

  /** `s.replace(/^"|"$/g, '')`: one leading and one trailing double quote removed. */
  function StripQuotes(s: string): (r: string)
    ensures |s| - 2 <= |r| <= |s|
  {
    var a := if s != [] && s[0] == '"' then s[1..] else s;
    if a != [] && a[|a| - 1] == '"' then a[..|a| - 1] else a
  }

  /** The pieces of a bracketed value between commas, each trimmed and unquoted. */
  function ListItems(inner: string): (items: seq<string>)
    ensures |items| == |Split(inner, ',')|
    ensures forall i :: 0 <= i < |items| ==> items[i] == StripQuotes(Trim(Split(inner, ',')[i]))
  {
    var pieces := Split(inner, ',');
    seq(|pieces|, i requires 0 <= i < |pieces| => StripQuotes(Trim(pieces[i])))
  }

  /** A trimmed value in brackets becomes a list; any other value stays a string. */
  function ValueOf(v: string): (m: MetaValue)
    ensures m.MList? <==> |v| >= 2 && v[0] == '[' && v[|v| - 1] == ']'
    ensures m.MList? ==> m.items == ListItems(v[1..|v| - 1])
    ensures m.MStr? ==> m.text == v
  {
    if |v| >= 2 && v[0] == '[' && v[|v| - 1] == ']' then MList(ListItems(v[1..|v| - 1])) else MStr(v)
  }

  /** No line terminator: what `.` matches character by character. */
  predicate SingleLine(s: string) {
    forall i :: 0 <= i < |s| ==> !IsLineTerminator(s[i])
  }

  /**
    A line `key: value`: the key is the text before the first colon (at least one character),
    trimmed; after the colon white space is skipped and the rest, which `.` must match to the
    end, is trimmed. A line with no such match is skipped.
  */
  function ParseLine(line: string): (r: Option<(string, MetaValue)>)
    ensures r.Some? ==> 0 < IndexOf(line, ':') && r.value.0 == Trim(line[..IndexOf(line, ':')])
    ensures IndexOf(line, ':') <= 0 ==> r.None?
  {
    var p := IndexOf(line, ':');
    if p <= 0 then None
    else
      var rest := TrimStart(line[p + 1..]);
      if !SingleLine(rest) then None
      else Some((Trim(line[..p]), ValueOf(Trim(rest))))
  }

  /** The first colon of `key:rest` is the one after the key when the key holds none. */
  lemma FirstColon(key: string, rest: string)
    requires ':' !in key
    ensures IndexOf(key + [':'] + rest, ':') == |key|
    ensures (key + [':'] + rest)[..|key|] == key && (key + [':'] + rest)[|key| + 1..] == rest
    decreases |key|
  {
    if key != [] {
      assert (key + [':'] + rest)[1..] == key[1..] + [':'] + rest;
      FirstColon(key[1..], rest);
    }
  }

  /** One leading space is skipped and nothing more when the text after it starts with no white space. */
  lemma SkipOneSpace(value: string)
    requires value == [] || !IsSpace(value[0])
    ensures TrimStart([' '] + value) == value
  {
    assert ([' '] + value)[1..] == value;
  }

  /**
    A line written as `key: value` reads back as that key and value, trimmed, when the key
    holds no colon and the value starts with no white space and holds no line break.
  */
  lemma ParseLineRoundTrip(key: string, value: string)
    requires key != [] && ':' !in key
    requires value == [] || !IsSpace(value[0])
    requires SingleLine(value)
    ensures ParseLine(key + [':', ' '] + value) == Some((Trim(key), ValueOf(Trim(value))))
  {
    var rest := [' '] + value;
    var line := key + [':'] + rest;
    assert key + [':', ' '] + value == line;
    assert IndexOf(line, ':') == |key| && line[..|key|] == key && line[|key| + 1..] == rest by {
      FirstColon(key, rest);
    }
    assert TrimStart(rest) == value by {
      SkipOneSpace(value);
    }
    ParseLineParts(line, |key|, value);
  }

  /** A line whose first colon is at `p > 0` and whose text after it, less leading white space, is one line. */
  lemma ParseLineParts(line: string, p: nat, rest: string)
    requires 0 < p == IndexOf(line, ':') && p < |line| && TrimStart(line[p + 1..]) == rest && SingleLine(rest)
    ensures ParseLine(line) == Some((Trim(line[..p]), ValueOf(Trim(rest))))
  {
  }

  /** What each line assigns, if anything. */
  function Assignments(lines: seq<string>): (asg: seq<Option<(string, MetaValue)>>)
    ensures |asg| == |lines| && forall i :: 0 <= i < |lines| ==> asg[i] == ParseLine(lines[i])
  {
    seq(|lines|, i requires 0 <= i < |lines| => ParseLine(lines[i]))
  }

  /** The object built by making the assignments in order, so a later one wins. */
  function Assign(asg: seq<Option<(string, MetaValue)>>): Meta
    decreases |asg|
  {
    if asg == [] then map[]
    else
      var m := Assign(asg[..|asg| - 1]);
      match asg[|asg| - 1]
      case None => m
      case Some(kv) => m[kv.0 := kv.1]
  }

  /** One more assignment. */
  lemma AssignStep(asg: seq<Option<(string, MetaValue)>>, i: nat)
    requires i < |asg|
    ensures Assign(asg[..i + 1]) ==
      if asg[i].Some? then Assign(asg[..i])[asg[i].value.0 := asg[i].value.1] else Assign(asg[..i])
  {
    assert asg[..i + 1][..i] == asg[..i];
  }

  /** The meta object of the front-matter lines. */
  function MetaOf(lines: seq<string>): Meta {
    Assign(Assignments(lines))
  }

  /** A key is in the object exactly when some assignment names it. */
  lemma {:induction false} AssignKeys(asg: seq<Option<(string, MetaValue)>>, key: string)
    ensures key in Assign(asg) <==> exists i :: 0 <= i < |asg| && asg[i].Some? && asg[i].value.0 == key
    decreases |asg|
  {
    if asg != [] {
      var p := asg[..|asg| - 1];
      AssignKeys(p, key);
      assert forall i :: 0 <= i < |p| ==> p[i] == asg[i];
    }
  }

  /** The value of a key is the one of the last assignment that names it. */
  lemma {:induction false} AssignLastWins(asg: seq<Option<(string, MetaValue)>>, i: nat)
    requires i < |asg| && asg[i].Some?
    requires forall j :: i < j < |asg| && asg[j].Some? ==> asg[j].value.0 != asg[i].value.0
    ensures asg[i].value.0 in Assign(asg) && Assign(asg)[asg[i].value.0] == asg[i].value.1
    decreases |asg|
  {
    var p := asg[..|asg| - 1];
    if i < |asg| - 1 {
      assert forall j :: i < j < |p| ==> p[j] == asg[j];
      AssignLastWins(p, i);
    }
  }

  /** A key is in the meta object exactly when some line assigns it. */
  lemma MetaKeys(lines: seq<string>, key: string)
    ensures key in MetaOf(lines) <==>
      exists i :: 0 <= i < |lines| && ParseLine(lines[i]).Some? && ParseLine(lines[i]).value.0 == key
  {
    AssignKeys(Assignments(lines), key);
  }

  /** The value of a key is the one given by the last line that assigns it. */
  lemma MetaLastWins(lines: seq<string>, i: nat)
    requires i < |lines| && ParseLine(lines[i]).Some?
    requires forall j :: i < j < |lines| && ParseLine(lines[j]).Some? ==>
      ParseLine(lines[j]).value.0 != ParseLine(lines[i]).value.0
    ensures ParseLine(lines[i]).value.0 in MetaOf(lines)
    ensures MetaOf(lines)[ParseLine(lines[i]).value.0] == ParseLine(lines[i]).value.1
  {
    AssignLastWins(Assignments(lines), i);
  }

  /**
    `parseFrontmatter` on a file: with no block at the top, no meta and the whole text as body;
    otherwise the meta of the lines before the first closing marker and the text after it (and
    after one newline, if there is one) as body.
  */
  function Frontmatter(raw: string): (r: Parsed)
    ensures |r.body| <= |raw| && r.body == raw[|raw| - |r.body|..]
    ensures !Opens(raw) || FindClose(raw, 4) < 0 ==> r == Parsed(None, raw)
    ensures r.meta.Some? ==> Opens(raw) && |r.body| <= |raw| - 8
  {
    if !Opens(raw) then Parsed(None, raw)
    else
      var j := FindClose(raw, 4);
      if j < 0 then Parsed(None, raw)
      else
        var end := if j + 4 < |raw| && raw[j + 4] == '\n' then j + 5 else j + 4;
        Parsed(Some(MetaOf(Split(raw[4..j], '\n'))), raw[end..])
  }

  /**
    Writing front matter and a body out and reading the file back gives the same meta and
    body, for front matter that holds no closing marker of its own.
  */
  lemma FrontmatterRoundTrip(fm: string, body: string)
    requires forall k :: !ClosesAt(fm, k)
    ensures Frontmatter("---\n" + fm + "\n---\n" + body) == Parsed(Some(MetaOf(Split(fm, '\n'))), body)
  {
    var raw := "---\n" + fm + "\n---\n" + body;
    var j := 4 + |fm|;
    assert Opens(raw) && raw[4..j] == fm && ClosesAt(raw, j) && raw[j + 4] == '\n' && raw[j + 5..] == body &&
      forall t :: 0 <= t < |fm| ==> raw[4 + t] == fm[t]
    by {
      assert raw == ("---\n" + fm) + ("\n---\n" + body);
    }
    forall k | 4 <= k < j
      ensures !ClosesAt(raw, k)
    {
      if k + 4 <= j {
        assert !ClosesAt(fm, k - 4);
      }
    }
    assert FindClose(raw, 4) == j;
  }

  /**
    With no newline after the closing marker (the file ends there, or the body starts on the
    same line), the body is everything after the marker.
  */
  lemma FrontmatterBareClose(fm: string, body: string)
    requires forall k :: !ClosesAt(fm, k)
    requires body == [] || body[0] != '\n'
    ensures Frontmatter("---\n" + fm + "\n---" + body) == Parsed(Some(MetaOf(Split(fm, '\n'))), body)
  {
    var raw := "---\n" + fm + "\n---" + body;
    var j := 4 + |fm|;
    assert Opens(raw) && raw[4..j] == fm && ClosesAt(raw, j) && raw[j + 4..] == body &&
      (j + 4 < |raw| ==> raw[j + 4] == body[0]) &&
      forall t :: 0 <= t < |fm| ==> raw[4 + t] == fm[t]
    by {
      assert raw == ("---\n" + fm) + ("\n---" + body);
    }
    forall k | 4 <= k < j
      ensures !ClosesAt(raw, k)
    {
      if k + 4 <= j {
        assert !ClosesAt(fm, k - 4);
      }
    }
    assert FindClose(raw, 4) == j;
  }

  /** A file that is only front matter has an empty body. */
  lemma FrontmatterOnly(fm: string)
    requires forall k :: !ClosesAt(fm, k)
    ensures Frontmatter("---\n" + fm + "\n---") == Parsed(Some(MetaOf(Split(fm, '\n'))), [])
  {
    FrontmatterBareClose(fm, []);
    assert "---\n" + fm + "\n---" + [] == "---\n" + fm + "\n---";
  }

  /** The front-matter loop of `parseFrontmatter`. */
  method ParseMeta(fm: string) returns (meta: Meta)
    ensures meta == MetaOf(Split(fm, '\n'))
  {
    var lines := Split(fm, '\n');
    ghost var asg := Assignments(lines);
    meta := map[];
    var i := 0;
    while i < |lines|
      invariant 0 <= i <= |lines|
      invariant meta == Assign(asg[..i])
    {
      AssignStep(asg, i);
      var m := ParseLine(lines[i]);
      assert m == asg[i];
      if m.Some? {
        meta := meta[m.value.0 := m.value.1];
      }
      i := i + 1;
    }
    assert asg[..i] == asg;
  }

  /** `parseFrontmatter`. */
  method ParseFrontmatter(raw: string) returns (r: Parsed)
    ensures r == Frontmatter(raw)
  {
    if !Opens(raw) {
      return Parsed(None, raw);
    }
    var j := FindClose(raw, 4);
    if j < 0 {
      return Parsed(None, raw);
    }
    var end := if j + 4 < |raw| && raw[j + 4] == '\n' then j + 5 else j + 4;
    var meta := ParseMeta(raw[4..j]);
    r := Parsed(Some(meta), raw[end..]);
  }

  // ---- posts ----

  /** JavaScript truthiness of a meta field: a missing field or an empty string is false; a list never is. */
  predicate Truthy(v: Option<MetaValue>) {
    match v
    case None => false
    case Some(MStr(s)) => s != ""
    case Some(MList(_)) => true
  }

  function Field(meta: Meta, key: string): Option<MetaValue> {
    if key in meta then Some(meta[key]) else None
  }

  /** `meta[key] || fallback`. */
  function FieldOr(meta: Meta, key: string, fallback: MetaValue): (v: MetaValue)
    ensures Truthy(Field(meta, key)) ==> v == meta[key]
    ensures !Truthy(Field(meta, key)) ==> v == fallback
  {
    if Truthy(Field(meta, key)) then meta[key] else fallback
  }

  const DefaultDate: MetaValue := MStr("1970-01-01")

  /** The post a parsed file gives, if its meta names a slug and a title. */
  function ToPost(p: Parsed): (r: Option<Post>)
    ensures r.Some? <==> p.meta.Some? && Truthy(Field(p.meta.value, "slug")) && Truthy(Field(p.meta.value, "title"))
    ensures r.Some? ==>
      r.value.slug == p.meta.value["slug"] && r.value.title == p.meta.value["title"] &&
      r.value.date == FieldOr(p.meta.value, "date", DefaultDate) &&
      r.value.tags == FieldOr(p.meta.value, "tags", MList([])) &&
      r.value.content == Trim(p.body)
  {
    if p.meta.None? then None
    else
      var m := p.meta.value;
      if !Truthy(Field(m, "slug")) || !Truthy(Field(m, "title")) then None
      else Some(Post(m["slug"], m["title"], FieldOr(m, "date", DefaultDate), FieldOr(m, "tags", MList([])), Trim(p.body)))
  }

  /** The post each file gives, if any. */
  function Candidates(files: seq<string>): (cs: seq<Option<Post>>)
    ensures |cs| == |files| && forall i :: 0 <= i < |files| ==> cs[i] == ToPost(Frontmatter(files[i]))
  {
    seq(|files|, i requires 0 <= i < |files| => ToPost(Frontmatter(files[i])))
  }

  /** The present values, in order. */
  function Keep<T>(cs: seq<Option<T>>): (xs: seq<T>)
    ensures |xs| <= |cs|
    decreases |cs|
  {
    if cs == [] then []
    else
      var rest := Keep(cs[..|cs| - 1]);
      match cs[|cs| - 1]
      case None => rest
      case Some(x) => rest + [x]
  }

  /** A kept value is present in the list, and every present value is kept. */
  lemma {:induction false} KeepMembers<T>(cs: seq<Option<T>>)
    ensures forall x :: x in Keep(cs) <==> Some(x) in cs
    decreases |cs|
  {
    if cs != [] {
      var p := cs[..|cs| - 1];
      KeepMembers(p);
      assert cs == p + [cs[|cs| - 1]];
    }
  }

  lemma KeepStep<T>(cs: seq<Option<T>>, i: nat)
    requires i < |cs|
    ensures Keep(cs[..i + 1]) == Keep(cs[..i]) + if cs[i].Some? then [cs[i].value] else []
  {
    assert cs[..i + 1][..i] == cs[..i];
  }

  /** The posts of the files that have a slug and a title, in file order. */
  function Loaded(files: seq<string>): (posts: seq<Post>)
    ensures |posts| <= |files|
  {
    Keep(Candidates(files))
  }

  /** A post comes from some file, and every file with a slug and a title gives one. */
  lemma LoadedPosts(files: seq<string>)
    ensures forall p :: p in Loaded(files) <==> exists i :: 0 <= i < |files| && ToPost(Frontmatter(files[i])) == Some(p)
  {
    var cs := Candidates(files);
    KeepMembers(cs);
    forall p
      ensures Some(p) in cs <==> exists i :: 0 <= i < |files| && ToPost(Frontmatter(files[i])) == Some(p)
    {
      if Some(p) in cs {
        var i :| 0 <= i < |cs| && cs[i] == Some(p);
      }
    }
  }

  /** The text `<` compares for a date field: a list is joined with commas, as JavaScript converts it. */
  function DateText(v: MetaValue): string {
    match v
    case MStr(s) => s
    case MList(items) => Join(items, ",")
  }

  /** `a` may come before `b`: its date is not smaller. */
  predicate Newer(a: Post, b: Post) {
    !LexLess(DateText(a.date), DateText(b.date))
  }

  /** The newest-first comparison ranks every pair of posts and chains. */
  lemma NewerOrders()
    ensures Sorting.TotalPreorder(Newer)
  {
    forall a: Post, b: Post
      ensures Newer(a, b) || Newer(b, a)
    {
      LexLessAsymmetric(DateText(a.date), DateText(b.date));
    }
    forall a: Post, b: Post, c: Post | Newer(a, b) && Newer(b, c)
      ensures Newer(a, c)
    {
      var x, y, z := DateText(a.date), DateText(b.date), DateText(c.date);
      LexLessTotal(x, y);
      LexLessTransitive(y, x, z);
      if x == y {
        assert !LexLess(x, z);
      }
    }
  }

  /**
    `getAllPosts`: every file is parsed, the posts that have a slug and a title are kept
    with their defaults filled in, and the list is ordered by date, newest first.
  */
  method GetAllPosts(files: seq<string>) returns (posts: seq<Post>)
    ensures Sorting.Sorted(posts, Newer)
    ensures multiset(posts) == multiset(Loaded(files))
  {
    ghost var cs := Candidates(files);
    var collected: seq<Post> := [];
    var i := 0;
    while i < |files|
      invariant 0 <= i <= |files|
      invariant collected == Keep(cs[..i])
    {
      var parsed := ParseFrontmatter(files[i]);
      var post := ToPost(parsed);
      assert post == cs[i];
      KeepStep(cs, i);
      if post.Some? {
        collected := collected + [post.value];
      }
      i := i + 1;
    }
    assert cs[..i] == cs;
    NewerOrders();
    posts := Sorting.Sort(collected, Newer);
  }

  predicate HasSlug(p: Post, slug: string) {
    p.slug == MStr(slug)
  }

  /** `posts.find(p => p.slug === slug) || null`. */
  function FindBySlug(posts: seq<Post>, slug: string): (r: Option<Post>)
    ensures r.Some? ==> r.value in posts && HasSlug(r.value, slug)
    ensures r.None? <==> forall i :: 0 <= i < |posts| ==> !HasSlug(posts[i], slug)
    ensures r.Some? ==> exists k :: 0 <= k < |posts| && posts[k] == r.value &&
                                   forall j :: 0 <= j < k ==> !HasSlug(posts[j], slug)
  {
    if posts == [] then None
    else if HasSlug(posts[0], slug) then Some(posts[0])
    else
      var r := FindBySlug(posts[1..], slug);
      assert r.Some? ==> posts[1..] == posts[1..];
      if r.Some? then
        assert forall i :: 0 <= i < |posts| - 1 ==> posts[1..][i] == posts[i + 1];
        r
      else None
  }

  /** `getPostBySlug`: a post of the files with that slug, or none when no post has it. */
  method GetPostBySlug(files: seq<string>, slug: string) returns (r: Option<Post>)
    ensures r.Some? ==> r.value in Loaded(files) && HasSlug(r.value, slug)
    ensures r.None? <==> forall p :: p in Loaded(files) ==> !HasSlug(p, slug)
    ensures r.Some? ==> forall p :: p in Loaded(files) && HasSlug(p, slug) ==> Newer(r.value, p)
  {
    var posts := GetAllPosts(files);
    r := FindBySlug(posts, slug);
    assert forall p :: p in posts <==> p in Loaded(files) by {
      forall p
        ensures p in posts <==> p in Loaded(files)
      {
        assert p in posts <==> p in multiset(posts);
        assert p in Loaded(files) <==> p in multiset(Loaded(files));
      }
    }
    if r.Some? {
      var k :| 0 <= k < |posts| && posts[k] == r.value && forall j :: 0 <= j < k ==> !HasSlug(posts[j], slug);
      forall p | p in posts && HasSlug(p, slug)
        ensures Newer(r.value, p)
      {
        var m :| 0 <= m < |posts| && posts[m] == p;
        if m == k {
          LexLessIrreflexive(DateText(p.date));
        }
      }
    }
  }

  // ---- the comma-split fallback for bracketed values, read back ----

  /** Neither end of the text is a double quote. */
  predicate Unquoted(s: string) {
    s == [] || (s[0] != '"' && s[|s| - 1] != '"')
  }

  /** A text in double quotes loses exactly those two quotes. */
  lemma StripQuotesWrapped(t: string)
    ensures StripQuotes(['"'] + t + ['"']) == t
  {
    var s := ['"'] + t + ['"'];
    assert s[1..] == t + ['"'];
    assert (t + ['"'])[..|t|] == t;
  }

  /** A quote at one end only is removed alone. */
  lemma StripQuotesOneSide(t: string)
    requires Unquoted(t)
    ensures StripQuotes(['"'] + t) == t && StripQuotes(t + ['"']) == t
  {
    assert (['"'] + t)[1..] == t;
    assert (t + ['"'])[..|t|] == t;
  }

  /** An unquoted text is left as it is. */
  lemma StripQuotesUnquoted(s: string)
    requires Unquoted(s)
    ensures StripQuotes(s) == s
  {
  }

  /** A list item that reads back as itself: no comma, no white space or quote at its ends. */
  predicate PlainItem(s: string) {
    ',' !in s && Unquoted(s) && (s == [] || (!IsSpace(s[0]) && !IsSpace(s[|s| - 1])))
  }

  /** Writing plain items in brackets, separated by commas, and reading the value back gives the items. */
  lemma ListRoundTrip(items: seq<string>)
    requires |items| >= 1
    requires forall i :: 0 <= i < |items| ==> PlainItem(items[i])
    ensures ListItems(Join(items, ",")) == items
    ensures ValueOf("[" + Join(items, ",") + "]") == MList(items)
  {
    var inner := Join(items, ",");
    JoinSplit(items, ',');
    var l := ListItems(inner);
    forall i | 0 <= i < |items|
      ensures l[i] == items[i]
    {
      PlainItemReads(items[i]);
    }
    Bracketed(inner);
  }

  lemma PlainItemReads(x: string)
    requires PlainItem(x)
    ensures StripQuotes(Trim(x)) == x
  {
    TrimTrimmed(x);
    StripQuotesUnquoted(x);
  }

  /** Empty brackets hold one empty item, not an empty list. */
  lemma EmptyBrackets()
    ensures ValueOf("[]") == MList([""])
  {
    assert IndexOf("", ',') < 0;
  }

  /** A quoted item holding a comma is still cut at the comma, and each piece loses its one quote. */
  lemma QuotedCommaSplits(a: string, b: string)
    requires PlainItem(a) && PlainItem(b)
    ensures ValueOf("[" + ['"'] + a + "," + b + ['"'] + "]") == MList([a, b])
  {
    var inner := (['"'] + a) + "," + (b + ['"']);
    QuotedPieces(a, b);
    Bracketed(inner);
    assert "[" + ['"'] + a + "," + b + ['"'] + "]" == "[" + inner + "]";
  }

  lemma QuotedPieces(a: string, b: string)
    requires PlainItem(a) && PlainItem(b)
    ensures ListItems((['"'] + a) + "," + (b + ['"'])) == [a, b]
  {
    var p, q := ['"'] + a, b + ['"'];
    assert Split(p + "," + q, ',') == [p, q] by {
      NoCommaWrapped(a, b);
      SplitPair(p, q);
    }
    assert StripQuotes(Trim(p)) == a by { QuotedStart(a); }
    assert StripQuotes(Trim(q)) == b by { QuotedFinish(b); }
    PairItems(p, q, a, b);
  }

  lemma NoCommaWrapped(a: string, b: string)
    requires ',' !in a && ',' !in b
    ensures ',' !in ['"'] + a && ',' !in b + ['"']
  {
  }

  /** A text in brackets reads as the list of the pieces inside. */
  lemma Bracketed(inner: string)
    ensures ValueOf("[" + inner + "]") == MList(ListItems(inner))
  {
    var v := "[" + inner + "]";
    assert v[1..|v| - 1] == inner;
  }

  lemma PairItems(p: string, q: string, a: string, b: string)
    requires Split(p + "," + q, ',') == [p, q]
    requires StripQuotes(Trim(p)) == a && StripQuotes(Trim(q)) == b
    ensures ListItems(p + "," + q) == [a, b]
  {
  }

  lemma SplitPair(p: string, q: string)
    requires ',' !in p && ',' !in q
    ensures Split(p + "," + q, ',') == [p, q]
  {
    assert [p, q][1..] == [q];
    assert Join([p, q], ",") == p + "," + q;
    JoinSplit([p, q], ',');
  }

  lemma QuotedStart(a: string)
    requires PlainItem(a)
    ensures StripQuotes(Trim(['"'] + a)) == a
  {
    TrimTrimmed(['"'] + a);
    StripQuotesOneSide(a);
  }

  lemma QuotedFinish(b: string)
    requires PlainItem(b)
    ensures StripQuotes(Trim(b + ['"'])) == b
  {
    TrimTrimmed(b + ['"']);
    StripQuotesOneSide(b);
  }


  // ---- lines the front-matter regex does not match ----

  /**
    A line is skipped when it has no colon past its first character, or when `.` cannot reach
    its end; `ParseLineParts` gives the other direction.
  */
  lemma ParseLineSkips(line: string)
    requires IndexOf(line, ':') <= 0 || !SingleLine(TrimStart(line[IndexOf(line, ':') + 1..]))
    ensures ParseLine(line).None?
  {
  }

  /** A line ending in a carriage return, as in a file with CRLF line ends, assigns nothing. */
  lemma CarriageReturnSkipped(key: string, value: string)
    requires key != [] && ':' !in key
    requires value != [] && !IsSpace(value[0])
    ensures ParseLine(key + [':', ' '] + value + ['\r']).None?
  {
    var rest := value + ['\r'];
    var line := key + [':'] + ([' '] + rest);
    assert key + [':', ' '] + value + ['\r'] == line;
    assert IndexOf(line, ':') == |key| && line[|key| + 1..] == [' '] + rest by {
      FirstColon(key, [' '] + rest);
    }
    assert TrimStart([' '] + rest) == rest by {
      SkipOneSpace(rest);
    }
    assert !SingleLine(rest) by {
      assert IsLineTerminator(rest[|rest| - 1]);
    }
    ParseLineSkips(line);
  }
}
