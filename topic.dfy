/**
  The landing pages of single topics (client/src/pages/topic.tsx): the path names a topic in
  the page's table, and the page stores a ten-question configuration for it and moves on to
  the quiz. A path the table does not know leaves everything as it was.
*/
module Topic {
  import opened Wrappers
  import opened Schema
  import Quiz

  /** An entry of `topicMap`; the page title and description it also carries only touch the document. */
  datatype TopicEntry = TopicEntry(topic: string, count: int)

  /** `topicMap`. */
  const TopicMap: map<string, TopicEntry> := map[
    "csharp_basics" := TopicEntry("C# Basics", 10),
    "control_flows_csharp" := TopicEntry("Control Flows C#", 10),
    "csharp_core" := TopicEntry("C# Core", 10),
    "csharp_aspdotnet_core" := TopicEntry("C# ASP.NET Core", 10),
    "csharp_entity_framework" := TopicEntry("C# Entity Framework", 10),
    "csharp_linq" := TopicEntry("C# LINQ", 10),
    "dotnet9_features" := TopicEntry(".NET9 Features", 10),
    "csharp_aspdotnet_middleware" := TopicEntry("C# ASP.NET Core Middleware & Pipeline", 10)
  ]

  /** `location.slice(1)`: the location without its first character. */
  function Slug(location: string): (slug: string)
    ensures location != [] ==> location == [location[0]] + slug
    ensures location == [] ==> slug == []
  {
    if location == [] then [] else location[1..]
  }

  /** The route of a topic page is a slash and the slug. */
  lemma SlugOfRoute(slug: string)
    ensures Slug("/" + slug) == slug
  {
  }

  /** What the page's effect does: the configuration it stores and where it sends the user. */
  datatype Effect = Effect(stored: Option<QuizConfig>, navigate: Option<string>)

  function OnLocation(location: string): (v: Effect)
    ensures Slug(location) in TopicMap ==>
      v.stored == Some(QuizConfig(TopicMap[Slug(location)].topic, TopicMap[Slug(location)].count)) &&
      v.navigate == Some("/quiz")
    ensures Slug(location) !in TopicMap ==> v.stored.None? && v.navigate.None?
  {
    var slug := Slug(location);
    if slug in TopicMap then
      var entry := TopicMap[slug];
      Effect(Some(QuizConfig(entry.topic, entry.count)), Some("/quiz"))
    else Effect(None, None)
  }

  /** Every entry of the table names a quiz topic and asks for ten questions. */
  lemma TableEntries()
    ensures forall slug :: slug in TopicMap ==> TopicMap[slug].topic in QuizTopics && TopicMap[slug].count == 10
  {
  }

  /** Whatever the location, a stored configuration is a valid one of ten questions. */
  lemma StoredValid(location: string)
    ensures OnLocation(location).stored.Some? ==>
      ValidConfig(OnLocation(location).stored.value) && OnLocation(location).stored.value.questionCount == 10
  {
    TableEntries();
  }

  /** The route for "C# Classes" reaches this page, but the table has no entry for it. */
  lemma ClassesRouteIgnored(location: string)
    requires location == "/csharp_classes"
    ensures OnLocation(location) == Effect(None, None)
  {
    assert Slug(location) == "csharp_classes";
  }

  /** The table and the quiz page's own fallback table know the same slugs and map them to the same topics. */
  lemma AgreesWithQuizFallback()
    ensures TopicMap.Keys == Quiz.FallbackTopics.Keys
    ensures forall slug :: slug in TopicMap ==> TopicMap[slug].topic == Quiz.FallbackTopics[slug]
  {
  }
}
