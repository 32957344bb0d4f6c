/**
  The question provider: the `/api/questions` handler (server/routes.ts:22-50). It checks the
  topic against the closed list, turns the label into the key of the question bank, and serves
  the first `count` questions of a shuffled copy of that topic's list.
*/
module Routes {
  import opened Wrappers
  import opened Text
  import opened Schema

  // ---------------------------------------------------------------------------------------
  // The topic key (server/routes.ts:33-39)
  // ---------------------------------------------------------------------------------------

  /** Replacing by a text without white space brings in no white space. */
  lemma ReplaceAllNoSpace(s: string, pat: string, rep: string)
    requires |pat| > 0
    ensures NoSpace(s) && NoSpace(rep) ==> NoSpace(ReplaceAll(s, pat, rep))
  {
    ReplaceAllMembers(s, pat, rep);
    NoSpaceMembers(s);
    NoSpaceMembers(rep);
    NoSpaceMembers(ReplaceAll(s, pat, rep));
  }

  /** The first four steps of the chain: lower-case, then "c#", ".net" and "&" spelt out. */
  function Rewrite(s: string): (r: string)
    ensures '&' !in r
    ensures forall c :: c in r ==> !IsUpperAscii(c)
  {
    var lower := Lower(s);
    var r1 := ReplaceAll(lower, "c#", "csharp");
    var r2 := ReplaceAll(r1, ".net", "dotnet");
    var r3 := ReplaceAll(r2, "&", "and");
    ReplaceAllRemoves(r2, '&', "and");
    ReplaceAllMembers(lower, "c#", "csharp");
    ReplaceAllMembers(r1, ".net", "dotnet");
    ReplaceAllMembers(r2, "&", "and");
    r3
  }

  /** The rewrites bring in no white space. */
  lemma RewriteNoSpace(s: string)
    requires NoSpace(s)
    ensures NoSpace(Rewrite(s))
  {
    var lower := Lower(s);
    var r1 := ReplaceAll(lower, "c#", "csharp");
    var r2 := ReplaceAll(r1, ".net", "dotnet");
    ReplaceAllNoSpace(lower, "c#", "csharp");
    ReplaceAllNoSpace(r1, ".net", "dotnet");
    ReplaceAllNoSpace(r2, "&", "and");
  }

  /** `s.replace(/\s+/g, "_")`: every maximal run of white space becomes one underscore. */
  function CollapseSpaces(s: string): (r: string)
    ensures NoSpace(r)
    ensures forall c :: c in r ==> c in s || c == '_'
    decreases |s|
  {
    if s == [] then []
    else if IsSpace(s[0]) then
      var t := TrimStart(s[1..]);
      assert forall c :: c in t ==> c in s by {
        forall c | c in t ensures c in s {
          var i :| 0 <= i < |t| && t[i] == c;
          assert s[|s| - |t| + i] == c;
        }
      }
      "_" + CollapseSpaces(t)
    else [s[0]] + CollapseSpaces(s[1..])
  }

  /**
    `topicKey`: the storage key of a topic label. Whatever the label, the key holds no white
    space, no '.', no '&' and no upper-case ASCII letter.
  */
  function TopicKey(topic: string): (k: string)
    ensures NoSpace(k)
    ensures '.' !in k && '&' !in k
    ensures forall c :: c in k ==> !IsUpperAscii(c)
  {
    var collapsed := CollapseSpaces(Rewrite(topic));
    var k := RemoveChars(collapsed, {'.'});
    RemoveCharsMembers(collapsed, {'.'});
    NoSpaceMembers(collapsed);
    NoSpaceMembers(k);
    k
  }

  // ---------------------------------------------------------------------------------------
  // Storage keys of the nine labels, computed word by word
  // ---------------------------------------------------------------------------------------

  /** The key of one word: the chain without the white-space step. */
  function WordKey(w: string): string {
    RemoveChars(Rewrite(w), {'.'})
  }

  lemma LowerSplit(a: string, b: string)
    ensures Lower(a + " " + b) == Lower(a) + " " + Lower(b)
  {
    LowerAppend(a + " ", b);
    LowerAppend(a, " ");
  }

  /** Every rewrite of the chain leaves a space between two words where it was. */
  lemma RewriteSplit(a: string, b: string)
    ensures Rewrite(a + " " + b) == Rewrite(a) + " " + Rewrite(b)
  {
    LowerSplit(a, b);
    var la, lb := Lower(a), Lower(b);
    ReplaceAllSplit(la, ' ', lb, "c#", "csharp");
    var r1a, r1b := ReplaceAll(la, "c#", "csharp"), ReplaceAll(lb, "c#", "csharp");
    ReplaceAllSplit(r1a, ' ', r1b, ".net", "dotnet");
    var r2a, r2b := ReplaceAll(r1a, ".net", "dotnet"), ReplaceAll(r1b, ".net", "dotnet");
    ReplaceAllSplit(r2a, ' ', r2b, "&", "and");
  }

  /** The first character of a replacement's output comes from the input or from the replacement. */
  lemma ReplaceAllHead(s: string, pat: string, rep: string)
    requires |pat| > 0 && s != [] && rep != []
    ensures ReplaceAll(s, pat, rep) != []
    ensures ReplaceAll(s, pat, rep)[0] == s[0] || ReplaceAll(s, pat, rep)[0] == rep[0]
  {
  }

  lemma RewriteHead(s: string)
    requires s != [] && !IsSpace(s[0])
    ensures Rewrite(s) != [] && !IsSpace(Rewrite(s)[0])
  {
    var lower := Lower(s);
    ReplaceAllHead(lower, "c#", "csharp");
    var r1 := ReplaceAll(lower, "c#", "csharp");
    ReplaceAllHead(r1, ".net", "dotnet");
    var r2 := ReplaceAll(r1, ".net", "dotnet");
    ReplaceAllHead(r2, "&", "and");
  }

  lemma {:induction false} CollapseNoSpace(s: string)
    requires NoSpace(s)
    ensures CollapseSpaces(s) == s
  {
    if s != [] {
      CollapseNoSpace(s[1..]);
    }
  }

  /** A single space between a word and a text starting with a non-space becomes one underscore. */
  lemma {:induction false} CollapseCons(x: string, y: string)
    requires NoSpace(x)
    requires y == [] || !IsSpace(y[0])
    ensures CollapseSpaces(x + " " + y) == x + "_" + CollapseSpaces(y)
    decreases |x|
  {
    var s := x + " " + y;
    if x == [] {
      assert s == [' '] + y;
      assert s[1..] == y;
    } else {
      assert s[0] == x[0];
      assert s[1..] == x[1..] + " " + y;
      CollapseCons(x[1..], y);
    }
  }

  lemma KeySingleWord(w: string)
    requires NoSpace(w)
    ensures TopicKey(w) == WordKey(w)
  {
    RewriteNoSpace(w);
    CollapseNoSpace(Rewrite(w));
  }

  /** The key of "word rest" is the word's key, an underscore, and the key of the rest. */
  lemma KeyCons(w: string, rest: string)
    requires NoSpace(w)
    requires rest != [] && !IsSpace(rest[0])
    ensures TopicKey(w + " " + rest) == WordKey(w) + "_" + TopicKey(rest)
  {
    RewriteSplit(w, rest);
    RewriteHead(rest);
    RewriteNoSpace(w);
    var x, y := Rewrite(w), Rewrite(rest);
    CollapseCons(x, y);
    var cy := CollapseSpaces(y);
    RemoveCharsAppend(x + "_", cy, {'.'});
    RemoveCharsAppend(x, "_", {'.'});
    assert RemoveChars("_", {'.'}) == "_";
    assert CollapseSpaces(Rewrite(w + " " + rest)) == x + "_" + cy;
  }

  lemma LowerKeeps(s: string, c: char)
    requires !IsUpperAscii(c) && c !in s
    requires 'a' <= c <= 'z' ==> forall i :: 0 <= i < |s| ==> s[i] as int != c as int - 32
    ensures c !in Lower(s)
  {
  }

  predicate IsLetter(c: char) {
    'a' <= c <= 'z' || 'A' <= c <= 'Z'
  }

  /** A text made of ASCII letters only. */
  predicate Letters(w: string) {
    forall i :: 0 <= i < |w| ==> IsLetter(w[i])
  }

  /** A text made of visible ASCII characters only (no white space). */
  predicate Visible(w: string) {
    forall i :: 0 <= i < |w| ==> '!' <= w[i] <= '~'
  }

  lemma VisibleNoSpace(w: string)
    requires Visible(w)
    ensures NoSpace(w)
  {
  }

  lemma LettersVisible(w: string)
    requires Letters(w)
    ensures Visible(w) && '#' !in w && '.' !in w && '&' !in w
  {
  }

  /** A word made of letters keys to its lower-case form. */
  lemma PlainWordKey(w: string)
    requires Letters(w)
    ensures NoSpace(w) && WordKey(w) == Lower(w)
  {
    LettersVisible(w);
    VisibleNoSpace(w);
    var l := Lower(w);
    LowerKeeps(w, '#');
    LowerKeeps(w, '.');
    LowerKeeps(w, '&');
    ReplaceAllAbsent(l, "c#", "csharp", '#');
    ReplaceAllAbsent(l, ".net", "dotnet", '.');
    ReplaceAllAbsent(l, "&", "and", '&');
    RemoveCharsNone(l, {'.'});
  }

  lemma ReplaceAllHit(pat: string, s: string, rep: string)
    requires |pat| > 0
    ensures ReplaceAll(pat + s, pat, rep) == rep + ReplaceAll(s, pat, rep)
  {
    assert pat <= pat + s;
    assert (pat + s)[|pat|..] == s;
  }

  /** The key of a one-word label is the word's key. */
  lemma KeyWord(w: string, kw: string)
    requires w != [] && NoSpace(w) && WordKey(w) == kw
    ensures TopicKey(w) == kw && !IsSpace(w[0])
  {
    KeySingleWord(w);
  }

  /** The key of "word rest" is the word's key, an underscore, and the key of the rest. */
  lemma KeyPrepend(w: string, rest: string, kw: string, kr: string)
    requires w != [] && NoSpace(w) && WordKey(w) == kw
    requires rest != [] && !IsSpace(rest[0]) && TopicKey(rest) == kr
    ensures TopicKey(w + " " + rest) == kw + "_" + kr
    ensures !IsSpace((w + " " + rest)[0])
  {
    KeyCons(w, rest);
  }

  /** A text whose first part holds no character starting the pattern keeps that part as it is. */
  lemma {:induction false} ReplaceAllPrefixFree(a: string, b: string, pat: string, rep: string)
    requires |pat| > 0 && pat[0] !in a
    ensures ReplaceAll(a + b, pat, rep) == a + ReplaceAll(b, pat, rep)
    decreases |a|
  {
    if a != [] {
      var s := a + b;
      assert s[0] == a[0] && s[1..] == a[1..] + b;
      ReplaceAllPrefixFree(a[1..], b, pat, rep);
    } else {
      assert a + b == b;
    }
  }

  // The keys of the fifteen words the labels are made of.

  lemma LowerBasics(w: string)
    requires w == "Basics"
    ensures Lower(w) == "basics"
  {
  }

  lemma WordKeyBasics(w: string)
    requires w == "Basics"
    ensures w != [] && NoSpace(w) && WordKey(w) == "basics"
  {
    LowerBasics(w);
    PlainWordKey(w);
  }

  lemma LowerClasses(w: string)
    requires w == "Classes"
    ensures Lower(w) == "classes"
  {
  }

  lemma WordKeyClasses(w: string)
    requires w == "Classes"
    ensures w != [] && NoSpace(w) && WordKey(w) == "classes"
  {
    LowerClasses(w);
    PlainWordKey(w);
  }

  lemma LowerControl(w: string)
    requires w == "Control"
    ensures Lower(w) == "control"
  {
  }

  lemma WordKeyControl(w: string)
    requires w == "Control"
    ensures w != [] && NoSpace(w) && WordKey(w) == "control"
  {
    LowerControl(w);
    PlainWordKey(w);
  }

  lemma LowerFlows(w: string)
    requires w == "Flows"
    ensures Lower(w) == "flows"
  {
  }

  lemma WordKeyFlows(w: string)
    requires w == "Flows"
    ensures w != [] && NoSpace(w) && WordKey(w) == "flows"
  {
    LowerFlows(w);
    PlainWordKey(w);
  }

  lemma LowerCore(w: string)
    requires w == "Core"
    ensures Lower(w) == "core"
  {
  }

  lemma WordKeyCore(w: string)
    requires w == "Core"
    ensures w != [] && NoSpace(w) && WordKey(w) == "core"
  {
    LowerCore(w);
    PlainWordKey(w);
  }

  lemma LowerEntity(w: string)
    requires w == "Entity"
    ensures Lower(w) == "entity"
  {
  }

  lemma WordKeyEntity(w: string)
    requires w == "Entity"
    ensures w != [] && NoSpace(w) && WordKey(w) == "entity"
  {
    LowerEntity(w);
    PlainWordKey(w);
  }

  lemma LowerFramework(w: string)
    requires w == "Framework"
    ensures Lower(w) == "framework"
  {
  }

  lemma WordKeyFramework(w: string)
    requires w == "Framework"
    ensures w != [] && NoSpace(w) && WordKey(w) == "framework"
  {
    LowerFramework(w);
    PlainWordKey(w);
  }

  lemma LowerLINQ(w: string)
    requires w == "LINQ"
    ensures Lower(w) == "linq"
  {
  }

  lemma WordKeyLINQ(w: string)
    requires w == "LINQ"
    ensures w != [] && NoSpace(w) && WordKey(w) == "linq"
  {
    LowerLINQ(w);
    PlainWordKey(w);
  }

  lemma LowerFeatures(w: string)
    requires w == "Features"
    ensures Lower(w) == "features"
  {
  }

  lemma WordKeyFeatures(w: string)
    requires w == "Features"
    ensures w != [] && NoSpace(w) && WordKey(w) == "features"
  {
    LowerFeatures(w);
    PlainWordKey(w);
  }

  lemma LowerMiddleware(w: string)
    requires w == "Middleware"
    ensures Lower(w) == "middleware"
  {
  }

  lemma WordKeyMiddleware(w: string)
    requires w == "Middleware"
    ensures w != [] && NoSpace(w) && WordKey(w) == "middleware"
  {
    LowerMiddleware(w);
    PlainWordKey(w);
  }

  lemma LowerPipeline(w: string)
    requires w == "Pipeline"
    ensures Lower(w) == "pipeline"
  {
  }

  lemma WordKeyPipeline(w: string)
    requires w == "Pipeline"
    ensures w != [] && NoSpace(w) && WordKey(w) == "pipeline"
  {
    LowerPipeline(w);
    PlainWordKey(w);
  }
  lemma LowerCSharp(w: string)
    requires w == "C#"
    ensures Visible(w) && Lower(w) == "c#"
  {
  }

  lemma WordKeyCSharp(w: string)
    requires w == "C#"
    ensures w != [] && NoSpace(w) && WordKey(w) == "csharp"
  {
    LowerCSharp(w);
    VisibleNoSpace(w);
    var l := Lower(w);
    ReplaceAllHit(l, [], "csharp");
    assert l + [] == l;
    var r1 := ReplaceAll(l, "c#", "csharp");
    ReplaceAllAbsent(r1, ".net", "dotnet", '.');
    ReplaceAllAbsent(r1, "&", "and", '&');
    RemoveCharsNone(r1, {'.'});
  }

  lemma LowerAspNet(w: string)
    requires w == "ASP.NET"
    ensures Visible(w) && Lower(w) == "asp.net"
  {
  }

  lemma ReplaceNetInAspNet(l: string)
    requires l == "asp.net"
    ensures ReplaceAll(l, ".net", "dotnet") == "aspdotnet"
  {
    var a, b := l[..3], l[3..];
    assert l == a + b && '.' !in a;
    ReplaceAllPrefixFree(a, b, ".net", "dotnet");
    assert b == ".net" + l[7..] && l[7..] == [];
    ReplaceAllHit(".net", l[7..], "dotnet");
  }

  lemma WordKeyAspNet(w: string)
    requires w == "ASP.NET"
    ensures w != [] && NoSpace(w) && WordKey(w) == "aspdotnet"
  {
    LowerAspNet(w);
    VisibleNoSpace(w);
    var l := Lower(w);
    ReplaceAllAbsent(l, "c#", "csharp", '#');
    ReplaceNetInAspNet(l);
    DotNetSpelt("aspdotnet");
  }

  /** A text that "c#" left alone, without '&' or '.', is its own key once ".net" is spelt out. */
  lemma DotNetSpelt(r2: string)
    requires r2 == "aspdotnet"
    ensures ReplaceAll(r2, "&", "and") == r2 && RemoveChars(r2, {'.'}) == r2
  {
    ReplaceAllAbsent(r2, "&", "and", '&');
    RemoveCharsNone(r2, {'.'});
  }

  lemma LowerNet9(w: string)
    requires w == ".NET9"
    ensures Visible(w) && Lower(w) == ".net9"
  {
  }

  lemma WordKeyNet9(w: string)
    requires w == ".NET9"
    ensures w != [] && NoSpace(w) && WordKey(w) == "dotnet9"
  {
    LowerNet9(w);
    VisibleNoSpace(w);
    var l := Lower(w);
    ReplaceAllAbsent(l, "c#", "csharp", '#');
    assert l == ".net" + l[4..];
    ReplaceAllHit(".net", l[4..], "dotnet");
    ReplaceAllAbsent(l[4..], ".net", "dotnet", '.');
    var r2 := ReplaceAll(l, ".net", "dotnet");
    assert r2 == "dotnet9";
    ReplaceAllAbsent(r2, "&", "and", '&');
    RemoveCharsNone(r2, {'.'});
  }

  lemma LowerAmpersand(w: string)
    requires w == "&"
    ensures Visible(w) && Lower(w) == "&"
  {
  }

  lemma WordKeyAmpersand(w: string)
    requires w == "&"
    ensures w != [] && NoSpace(w) && WordKey(w) == "and"
  {
    LowerAmpersand(w);
    VisibleNoSpace(w);
    var l := Lower(w);
    ReplaceAllAbsent(l, "c#", "csharp", '#');
    ReplaceAllAbsent(l, ".net", "dotnet", '.');
    ReplaceAllHit(l, [], "and");
    assert l + [] == l;
    RemoveCharsNone(ReplaceAll(l, "&", "and"), {'.'});
  }


  lemma SplitCSharpBasics(t: string, a: string, b: string)
    requires t == "C# Basics"
    requires a == "C#" && b == "Basics"
    ensures t == a + " " + b
  {
  }

  lemma JoinCSharpBasics(ka: string, kb: string)
    requires ka == "csharp" && kb == "basics"
    ensures ka + "_" + kb == "csharp_basics"
  {
  }

  /** The storage key of "C# Basics". */
  lemma KeyCSharpBasics(t: string, a: string, b: string)
    requires t == "C# Basics"
    requires a == "C#" && b == "Basics"
    ensures TopicKey(t) == "csharp_basics"
  {
    WordKeyCSharp(a);
    WordKeyBasics(b);
    KeyWord(b, WordKey(b));
    KeyPrepend(a, b, WordKey(a), TopicKey(b));
    SplitCSharpBasics(t, a, b);
    JoinCSharpBasics(WordKey(a), WordKey(b));
  }

  lemma SplitCSharpClasses(t: string, a: string, b: string)
    requires t == "C# Classes"
    requires a == "C#" && b == "Classes"
    ensures t == a + " " + b
  {
  }

  lemma JoinCSharpClasses(ka: string, kb: string)
    requires ka == "csharp" && kb == "classes"
    ensures ka + "_" + kb == "csharp_classes"
  {
  }

  /** The storage key of "C# Classes". */
  lemma KeyCSharpClasses(t: string, a: string, b: string)
    requires t == "C# Classes"
    requires a == "C#" && b == "Classes"
    ensures TopicKey(t) == "csharp_classes"
  {
    WordKeyCSharp(a);
    WordKeyClasses(b);
    KeyWord(b, WordKey(b));
    KeyPrepend(a, b, WordKey(a), TopicKey(b));
    SplitCSharpClasses(t, a, b);
    JoinCSharpClasses(WordKey(a), WordKey(b));
  }

  lemma SplitControlFlowsCSharp(t: string, a: string, b: string, c: string)
    requires t == "Control Flows C#"
    requires a == "Control" && b == "Flows" && c == "C#"
    ensures t == a + " " + (b + " " + c)
  {
  }

  lemma JoinControlFlowsCSharp(ka: string, kb: string, kc: string)
    requires ka == "control" && kb == "flows" && kc == "csharp"
    ensures ka + "_" + (kb + "_" + kc) == "control_flows_csharp"
  {
  }

  /** The storage key of "Control Flows C#". */
  lemma KeyControlFlowsCSharp(t: string, a: string, b: string, c: string)
    requires t == "Control Flows C#"
    requires a == "Control" && b == "Flows" && c == "C#"
    ensures TopicKey(t) == "control_flows_csharp"
  {
    WordKeyControl(a);
    WordKeyFlows(b);
    WordKeyCSharp(c);
    KeyWord(c, WordKey(c));
    KeyPrepend(b, c, WordKey(b), TopicKey(c));
    KeyPrepend(a, b + " " + c, WordKey(a), TopicKey(b + " " + c));
    SplitControlFlowsCSharp(t, a, b, c);
    JoinControlFlowsCSharp(WordKey(a), WordKey(b), WordKey(c));
  }

  lemma SplitCSharpCore(t: string, a: string, b: string)
    requires t == "C# Core"
    requires a == "C#" && b == "Core"
    ensures t == a + " " + b
  {
  }

  lemma JoinCSharpCore(ka: string, kb: string)
    requires ka == "csharp" && kb == "core"
    ensures ka + "_" + kb == "csharp_core"
  {
  }

  /** The storage key of "C# Core". */
  lemma KeyCSharpCore(t: string, a: string, b: string)
    requires t == "C# Core"
    requires a == "C#" && b == "Core"
    ensures TopicKey(t) == "csharp_core"
  {
    WordKeyCSharp(a);
    WordKeyCore(b);
    KeyWord(b, WordKey(b));
    KeyPrepend(a, b, WordKey(a), TopicKey(b));
    SplitCSharpCore(t, a, b);
    JoinCSharpCore(WordKey(a), WordKey(b));
  }

  lemma SplitCSharpAspNetCore(t: string, a: string, b: string, c: string)
    requires t == "C# ASP.NET Core"
    requires a == "C#" && b == "ASP.NET" && c == "Core"
    ensures t == a + " " + (b + " " + c)
  {
  }

  lemma JoinCSharpAspNetCore(ka: string, kb: string, kc: string)
    requires ka == "csharp" && kb == "aspdotnet" && kc == "core"
    ensures ka + "_" + (kb + "_" + kc) == "csharp_aspdotnet_core"
  {
  }

  /** The storage key of "C# ASP.NET Core". */
  lemma KeyCSharpAspNetCore(t: string, a: string, b: string, c: string)
    requires t == "C# ASP.NET Core"
    requires a == "C#" && b == "ASP.NET" && c == "Core"
    ensures TopicKey(t) == "csharp_aspdotnet_core"
  {
    WordKeyCSharp(a);
    WordKeyAspNet(b);
    WordKeyCore(c);
    KeyWord(c, WordKey(c));
    KeyPrepend(b, c, WordKey(b), TopicKey(c));
    KeyPrepend(a, b + " " + c, WordKey(a), TopicKey(b + " " + c));
    SplitCSharpAspNetCore(t, a, b, c);
    JoinCSharpAspNetCore(WordKey(a), WordKey(b), WordKey(c));
  }

  lemma SplitCSharpEntityFramework(t: string, a: string, b: string, c: string)
    requires t == "C# Entity Framework"
    requires a == "C#" && b == "Entity" && c == "Framework"
    ensures t == a + " " + (b + " " + c)
  {
  }

  lemma JoinCSharpEntityFramework(ka: string, kb: string, kc: string)
    requires ka == "csharp" && kb == "entity" && kc == "framework"
    ensures ka + "_" + (kb + "_" + kc) == "csharp_entity_framework"
  {
  }

  /** The storage key of "C# Entity Framework". */
  lemma KeyCSharpEntityFramework(t: string, a: string, b: string, c: string)
    requires t == "C# Entity Framework"
    requires a == "C#" && b == "Entity" && c == "Framework"
    ensures TopicKey(t) == "csharp_entity_framework"
  {
    WordKeyCSharp(a);
    WordKeyEntity(b);
    WordKeyFramework(c);
    KeyWord(c, WordKey(c));
    KeyPrepend(b, c, WordKey(b), TopicKey(c));
    KeyPrepend(a, b + " " + c, WordKey(a), TopicKey(b + " " + c));
    SplitCSharpEntityFramework(t, a, b, c);
    JoinCSharpEntityFramework(WordKey(a), WordKey(b), WordKey(c));
  }

  lemma SplitCSharpLinq(t: string, a: string, b: string)
    requires t == "C# LINQ"
    requires a == "C#" && b == "LINQ"
    ensures t == a + " " + b
  {
  }

  lemma JoinCSharpLinq(ka: string, kb: string)
    requires ka == "csharp" && kb == "linq"
    ensures ka + "_" + kb == "csharp_linq"
  {
  }

  /** The storage key of "C# LINQ". */
  lemma KeyCSharpLinq(t: string, a: string, b: string)
    requires t == "C# LINQ"
    requires a == "C#" && b == "LINQ"
    ensures TopicKey(t) == "csharp_linq"
  {
    WordKeyCSharp(a);
    WordKeyLINQ(b);
    KeyWord(b, WordKey(b));
    KeyPrepend(a, b, WordKey(a), TopicKey(b));
    SplitCSharpLinq(t, a, b);
    JoinCSharpLinq(WordKey(a), WordKey(b));
  }

  lemma SplitNet9Features(t: string, a: string, b: string)
    requires t == ".NET9 Features"
    requires a == ".NET9" && b == "Features"
    ensures t == a + " " + b
  {
  }

  lemma JoinNet9Features(ka: string, kb: string)
    requires ka == "dotnet9" && kb == "features"
    ensures ka + "_" + kb == "dotnet9_features"
  {
  }

  /** The storage key of ".NET9 Features". */
  lemma KeyNet9Features(t: string, a: string, b: string)
    requires t == ".NET9 Features"
    requires a == ".NET9" && b == "Features"
    ensures TopicKey(t) == "dotnet9_features"
  {
    WordKeyNet9(a);
    WordKeyFeatures(b);
    KeyWord(b, WordKey(b));
    KeyPrepend(a, b, WordKey(a), TopicKey(b));
    SplitNet9Features(t, a, b);
    JoinNet9Features(WordKey(a), WordKey(b));
  }

  lemma SplitCSharpMiddleware(t: string, a: string, b: string, c: string, d: string, e: string, f: string)
    requires t == "C# ASP.NET Core Middleware & Pipeline"
    requires a == "C#" && b == "ASP.NET" && c == "Core" && d == "Middleware" && e == "&" && f == "Pipeline"
    ensures t == a + " " + (b + " " + (c + " " + (d + " " + (e + " " + f))))
  {
  }

  lemma JoinCSharpMiddleware(ka: string, kb: string, kc: string, kd: string, ke: string, kf: string)
    requires ka == "csharp" && kb == "aspdotnet" && kc == "core" && kd == "middleware" && ke == "and" && kf == "pipeline"
    ensures ka + "_" + (kb + "_" + (kc + "_" + (kd + "_" + (ke + "_" + kf)))) == "csharp_aspdotnet_core_middleware_and_pipeline"
  {
    JoinMiddlewareTail(kd, ke, kf);
  }

  lemma JoinMiddlewareTail(kd: string, ke: string, kf: string)
    requires kd == "middleware" && ke == "and" && kf == "pipeline"
    ensures kd + "_" + (ke + "_" + kf) == "middleware_and_pipeline"
  {
  }

  /** The storage key of "C# ASP.NET Core Middleware & Pipeline". */
  lemma KeyCSharpMiddleware(t: string, a: string, b: string, c: string, d: string, e: string, f: string)
    requires t == "C# ASP.NET Core Middleware & Pipeline"
    requires a == "C#" && b == "ASP.NET" && c == "Core" && d == "Middleware" && e == "&" && f == "Pipeline"
    ensures TopicKey(t) == "csharp_aspdotnet_core_middleware_and_pipeline"
  {
    WordKeyCSharp(a);
    WordKeyAspNet(b);
    WordKeyCore(c);
    WordKeyMiddleware(d);
    WordKeyAmpersand(e);
    WordKeyPipeline(f);
    KeyWord(f, WordKey(f));
    KeyPrepend(e, f, WordKey(e), TopicKey(f));
    KeyPrepend(d, e + " " + f, WordKey(d), TopicKey(e + " " + f));
    KeyPrepend(c, d + " " + (e + " " + f), WordKey(c), TopicKey(d + " " + (e + " " + f)));
    KeyPrepend(b, c + " " + (d + " " + (e + " " + f)), WordKey(b), TopicKey(c + " " + (d + " " + (e + " " + f))));
    KeyPrepend(a, b + " " + (c + " " + (d + " " + (e + " " + f))), WordKey(a), TopicKey(b + " " + (c + " " + (d + " " + (e + " " + f)))));
    SplitCSharpMiddleware(t, a, b, c, d, e, f);
    JoinCSharpMiddleware(WordKey(a), WordKey(b), WordKey(c), WordKey(d), WordKey(e), WordKey(f));
  }

  /** The storage keys of the labels of `quizTopics`, position by position. */
  const TopicStorageKeys: seq<string> := [
    "csharp_basics",
    "csharp_classes",
    "control_flows_csharp",
    "csharp_core",
    "csharp_aspdotnet_core",
    "csharp_entity_framework",
    "csharp_linq",
    "dotnet9_features",
    "csharp_aspdotnet_core_middleware_and_pipeline"
  ]

  lemma LabelKey0()
    ensures TopicKey(QuizTopics[0]) == TopicStorageKeys[0]
  {
    var t := QuizTopics[0];
    KeyCSharpBasics(t, "C#", "Basics");
  }

  lemma LabelKey1()
    ensures TopicKey(QuizTopics[1]) == TopicStorageKeys[1]
  {
    var t := QuizTopics[1];
    KeyCSharpClasses(t, "C#", "Classes");
  }

  lemma LabelKey2()
    ensures TopicKey(QuizTopics[2]) == TopicStorageKeys[2]
  {
    var t := QuizTopics[2];
    KeyControlFlowsCSharp(t, "Control", "Flows", "C#");
  }

  lemma LabelKey3()
    ensures TopicKey(QuizTopics[3]) == TopicStorageKeys[3]
  {
    var t := QuizTopics[3];
    KeyCSharpCore(t, "C#", "Core");
  }

  lemma LabelKey4()
    ensures TopicKey(QuizTopics[4]) == TopicStorageKeys[4]
  {
    var t := QuizTopics[4];
    KeyCSharpAspNetCore(t, "C#", "ASP.NET", "Core");
  }

  lemma LabelKey5()
    ensures TopicKey(QuizTopics[5]) == TopicStorageKeys[5]
  {
    var t := QuizTopics[5];
    KeyCSharpEntityFramework(t, "C#", "Entity", "Framework");
  }

  lemma LabelKey6()
    ensures TopicKey(QuizTopics[6]) == TopicStorageKeys[6]
  {
    var t := QuizTopics[6];
    KeyCSharpLinq(t, "C#", "LINQ");
  }

  lemma LabelKey7()
    ensures TopicKey(QuizTopics[7]) == TopicStorageKeys[7]
  {
    var t := QuizTopics[7];
    KeyNet9Features(t, ".NET9", "Features");
  }

  lemma LabelKey8()
    ensures TopicKey(QuizTopics[8]) == TopicStorageKeys[8]
  {
    var t := QuizTopics[8];
    KeyCSharpMiddleware(t, "C#", "ASP.NET", "Core", "Middleware", "&", "Pipeline");
  }

  /** Each label of `quizTopics` is stored under the key listed beside it. */
  lemma KeyOfLabel(i: nat)
    requires i < |QuizTopics|
    ensures i < |TopicStorageKeys| && TopicKey(QuizTopics[i]) == TopicStorageKeys[i]
  {
    if i < 4 {
      KeyOfFirstLabels(i);
    } else {
      KeyOfLastLabels(i);
    }
  }

  lemma KeyOfFirstLabels(i: nat)
    requires i < 4
    ensures TopicKey(QuizTopics[i]) == TopicStorageKeys[i]
  {
    if i == 0 {
      LabelKey0();
    } else if i == 1 {
      LabelKey1();
    } else if i == 2 {
      LabelKey2();
    } else {
      LabelKey3();
    }
  }

  lemma KeyOfLastLabels(i: nat)
    requires 4 <= i < 9
    ensures TopicKey(QuizTopics[i]) == TopicStorageKeys[i]
  {
    if i == 4 {
      LabelKey4();
    } else if i == 5 {
      LabelKey5();
    } else if i == 6 {
      LabelKey6();
    } else if i == 7 {
      LabelKey7();
    } else {
      LabelKey8();
    }
  }

  lemma StorageKeysDistinct()
    ensures forall i, j :: 0 <= i < j < |TopicStorageKeys| ==> TopicStorageKeys[i] != TopicStorageKeys[j]
  {
  }

  /** No two labels of `quizTopics` share a storage key. */
  lemma TopicKeysDistinct()
    ensures forall i, j :: 0 <= i < j < |QuizTopics| ==> TopicKey(QuizTopics[i]) != TopicKey(QuizTopics[j])
  {
    StorageKeysDistinct();
    forall i, j | 0 <= i < j < |QuizTopics|
      ensures TopicKey(QuizTopics[i]) != TopicKey(QuizTopics[j])
    {
      KeyOfLabel(i);
      KeyOfLabel(j);
    }
  }

  // ---------------------------------------------------------------------------------------
  // The handler (server/routes.ts:22-50)
  // ---------------------------------------------------------------------------------------

  /**
    `parseInt(req.query.count as string) || 20`. A missing parameter is read as the text
    "undefined", which does not parse; neither a NaN nor a 0 survives the `|| 20`.
  */
  function RequestedCount(count: Option<string>): (n: int)
    ensures n != 0
    ensures count.Some? && ParseInt(count.value).Some? && ParseInt(count.value).value != 0 ==>
              n == ParseInt(count.value).value
    ensures count.None? || ParseInt(count.value).None? || ParseInt(count.value) == Some(0) ==> n == 20
  {
    NumberOr(if count.Some? then ParseInt(count.value) else None, 20)
  }

  /** A count written out as a number is the count asked for, unless it is 0. */
  lemma RequestedCountOfNumber(n: int)
    ensures RequestedCount(Some(IntToString(n))) == (if n == 0 then 20 else n)
  {
    ParseIntToString(n);
  }

  /** `perm` lists every position of a list of length `n` exactly once. */
  predicate IsPermutation(perm: seq<nat>, n: nat) {
    |perm| == n &&
    (forall k :: 0 <= k < n ==> perm[k] < n) &&
    (forall k, l :: 0 <= k < l < n ==> perm[k] != perm[l])
  }

  /** The elements of `xs` at the positions `ps`, in that order. */
  function Pick<T>(xs: seq<T>, ps: seq<nat>): (r: seq<T>)
    requires forall k :: 0 <= k < |ps| ==> ps[k] < |xs|
    ensures |r| == |ps|
    ensures forall k :: 0 <= k < |ps| ==> r[k] == xs[ps[k]]
  {
    seq(|ps|, k requires 0 <= k < |ps| => xs[ps[k]])
  }

  /**
    Elements drawn from pairwise distinct positions of `xs` form a sub-multiset of `xs`: no
    question is served more often than it occurs in its topic's list.
  */
  lemma {:induction false} PickSubMultiset<T>(xs: seq<T>, ps: seq<nat>)
    requires forall k :: 0 <= k < |ps| ==> ps[k] < |xs|
    requires forall k, l :: 0 <= k < l < |ps| ==> ps[k] != ps[l]
    ensures multiset(Pick(xs, ps)) <= multiset(xs)
    decreases |ps|
  {
    if ps != [] {
      var m := |ps| - 1;
      var p := ps[m];
      var rest := xs[..p] + xs[p + 1..];
      var qs := seq(m, k requires 0 <= k < m => if ps[k] < p then ps[k] else ps[k] - 1);
      forall k | 0 <= k < m ensures qs[k] < |rest| && rest[qs[k]] == xs[ps[k]] {
        assert ps[k] != p;
      }
      forall k, l | 0 <= k < l < m ensures qs[k] != qs[l] {
        assert ps[k] != p && ps[l] != p && ps[k] != ps[l];
      }
      PickSubMultiset(rest, qs);
      assert Pick(xs, ps) == Pick(rest, qs) + [xs[p]];
      assert xs == xs[..p] + [xs[p]] + xs[p + 1..];
      assert multiset(xs) == multiset(rest) + multiset{xs[p]};
    }
  }

  /**
    `shuffled.slice(0, Math.min(count, shuffled.length))`, where `perm` is the arrangement the
    shuffle produced: `shuffled[k] == all[perm[k]]`.
  */
  function Select(all: seq<Question>, perm: seq<nat>, count: int): (r: seq<Question>)
    requires IsPermutation(perm, |all|)
    ensures |r| == SliceLength(|all|, Min(count, |all|))
    ensures forall k :: 0 <= k < |r| ==> r[k] == all[perm[k]]
    ensures multiset(r) <= multiset(all)
  {
    var n := SliceLength(|all|, Min(count, |all|));
    var r := Pick(all, perm[..n]);
    PickSubMultiset(all, perm[..n]);
    r
  }

  /** A sub-multiset as large as the whole is the whole. */
  lemma SubMultisetFull<T>(a: multiset<T>, b: multiset<T>)
    requires a <= b && |a| == |b|
    ensures a == b
  {
    var d := b - a;
    assert |d| == |b| - |a|;
    assert d == multiset{};
    assert b == a + d;
  }

  /**
    How many questions are served: `min(count, n)` for a non-negative count and
    `max(0, n + count)` for a negative one; a count of at least `n` serves the whole list.
  */
  lemma SelectLength(all: seq<Question>, perm: seq<nat>, count: int)
    requires IsPermutation(perm, |all|)
    ensures 0 <= count ==> |Select(all, perm, count)| == Min(count, |all|)
    ensures count < 0 ==> |Select(all, perm, count)| == Max(0, |all| + count)
    ensures count >= |all| ==> multiset(Select(all, perm, count)) == multiset(all)
  {
    if count >= |all| {
      var r := Select(all, perm, count);
      SubMultisetFull(multiset(r), multiset(all));
    }
  }

  /** What the handler sends: the served questions, or an error status with its message. */
  datatype Response = Served(questions: seq<Question>) | Failed(status: int, error: string)

  /** `questionsData[key] || []`: the topic's list, or nothing when the key is unknown. */
  function Lookup(bank: map<string, seq<Question>>, key: string): seq<Question> {
    if key in bank then bank[key] else []
  }

  /** The `topic` query parameter names one of the labels of `quizTopics`. */
  predicate KnownTopic(topic: Option<string>) {
    topic.Some? && topic.value in QuizTopics
  }

  /** The part of the handler's input the shuffle supplies: an arrangement of the list it shuffles. */
  predicate ShuffleFits(topic: Option<string>, bank: map<string, seq<Question>>, perm: seq<nat>) {
    KnownTopic(topic) ==> IsPermutation(perm, |Lookup(bank, TopicKey(topic.value))|)
  }

  /**
    The body of `GET /api/questions`. An absent or unknown topic is refused with 400 before the
    bank is consulted; a topic whose key has no questions is answered with 404; otherwise the
    first `count` questions of the shuffled list are served.
  */
  function GetQuestions(topic: Option<string>, count: Option<string>, bank: map<string, seq<Question>>,
                        perm: seq<nat>): (r: Response)
    requires ShuffleFits(topic, bank, perm)
    ensures !KnownTopic(topic) <==> r == Failed(400, "Invalid topic")
    ensures KnownTopic(topic) && Lookup(bank, TopicKey(topic.value)) == [] <==>
              r == Failed(404, "No questions found for this topic")
    ensures r.Served? <==> KnownTopic(topic) && Lookup(bank, TopicKey(topic.value)) != []
    ensures r.Served? ==>
              var all := Lookup(bank, TopicKey(topic.value));
              |r.questions| == SliceLength(|all|, Min(RequestedCount(count), |all|)) &&
              (forall k :: 0 <= k < |r.questions| ==> r.questions[k] == all[perm[k]]) &&
              multiset(r.questions) <= multiset(all)
  {
    if !KnownTopic(topic) then Failed(400, "Invalid topic")
    else
      var all := Lookup(bank, TopicKey(topic.value));
      if |all| == 0 then Failed(404, "No questions found for this topic")
      else Served(Select(all, perm, RequestedCount(count)))
  }

  /**
    With no `count`, or one that is 0 or does not parse, twenty questions are served (or all
    of them when the topic has fewer).
  */
  lemma DefaultCount(topic: Option<string>, count: Option<string>, bank: map<string, seq<Question>>, perm: seq<nat>)
    requires ShuffleFits(topic, bank, perm)
    requires count.None? || ParseInt(count.value).None? || ParseInt(count.value) == Some(0)
    ensures GetQuestions(topic, count, bank, perm).Served? ==>
              |GetQuestions(topic, count, bank, perm).questions| ==
                Min(20, |Lookup(bank, TopicKey(topic.value))|)
  {
  }
}
