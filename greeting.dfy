/** A model of the greeting formatter of hello.go: a language name selects one of
    four fixed prefixes, and the greeting is that prefix followed by the name
    (or by "World" when the name is empty). */
module Greeting {

  datatype Option<T> = None | Some(value: T)

  // The languages the switch recognises, matched exactly (case-sensitive).
  const Spanish: string := "Spanish"
  const French: string := "French"
  const Azerbaijani: string := "Azerbaijani"

  // The four prefixes; English is the fallback for every other language.
  const EnglishHelloPrefix: string := "Hello, "
  const SpanishHelloPrefix: string := "Hola, "
  const FrenchHelloPrefix: string := "Bonjour, "
  const AzerbaijaniHelloPrefix: string := "Salam, "

  // The name greeted when the caller gives none.
  const DefaultName: string := "World"

  /** The set of every prefix a greeting can start with. */
  function Prefixes(): set<string>
  {
    {EnglishHelloPrefix, SpanishHelloPrefix, FrenchHelloPrefix, AzerbaijaniHelloPrefix}
  }

  /** A prefix is a non-empty word followed by a comma and a space. */
  predicate IsPrefixShaped(p: string)
  {
    |p| > 2 && p[|p| - 2..] == ", "
  }

  /** The prefix for a language: the three recognised languages get their own
      prefix, every other string (the empty one and case variants included)
      gets the English one. */
  function GreetingPrefix(language: string): (prefix: string)
    ensures prefix in Prefixes() && IsPrefixShaped(prefix)
    ensures prefix == SpanishHelloPrefix <==> language == Spanish
    ensures prefix == FrenchHelloPrefix <==> language == French
    ensures prefix == AzerbaijaniHelloPrefix <==> language == Azerbaijani
    ensures prefix == EnglishHelloPrefix <==> language !in {Spanish, French, Azerbaijani}
  {
    if language == Spanish then SpanishHelloPrefix
    else if language == French then FrenchHelloPrefix
    else if language == Azerbaijani then AzerbaijaniHelloPrefix
    else EnglishHelloPrefix
  }

  /** The name that is actually greeted: never empty, and the caller's own
      name whenever the caller gives one. */
  function GreetedName(name: string): (greeted: string)
    ensures greeted != []
    ensures name != [] ==> greeted == name
    ensures name == [] ==> greeted == DefaultName
  {
    if name == [] then DefaultName else name
  }

  /** The greeting: the language's prefix, then the greeted name. */
  function Hello(name: string, language: string): (greeting: string)
    ensures |greeting| > |GreetingPrefix(language)|
    ensures greeting[..|GreetingPrefix(language)|] == GreetingPrefix(language)
    ensures name != [] ==> greeting[|GreetingPrefix(language)|..] == name
    ensures name == [] ==> greeting[|GreetingPrefix(language)|..] == DefaultName
    ensures |greeting| == |GreetingPrefix(language)| + (if name == [] then |DefaultName| else |name|)
  {
    var prefix := GreetingPrefix(language);
    var greeting := prefix + GreetedName(name);
    assert greeting[..|prefix|] == prefix;
    assert greeting[|prefix|..] == GreetedName(name);
    greeting
  }

  /** An independent statement of the prefix table, as a lookup in a map from
      language to prefix with English as the default. */
  function PrefixTable(): map<string, string>
  {
    map[Spanish := SpanishHelloPrefix, French := FrenchHelloPrefix, Azerbaijani := AzerbaijaniHelloPrefix]
  }

  /** The switch and the table agree on every language. */
  lemma GreetingPrefixMatchesTable(language: string)
    ensures GreetingPrefix(language) ==
              if language in PrefixTable() then PrefixTable()[language] else EnglishHelloPrefix
  {
  }

  /** The result of splitting a greeting into its prefix and its name. */
  datatype Parsed = Parsed(prefix: string, name: string)

  /** Removes `p` from the front of `s`: succeeds with the rest exactly when
      `s` is `p` followed by something. */
  function StripPrefix(p: string, s: string): (rest: Option<string>)
    ensures rest.Some? ==> p + rest.value == s
    ensures rest.None? ==> forall t :: p + t != s
  {
    if |p| <= |s| && s[..|p|] == p then
      assert p + s[|p|..] == s;
      Some(s[|p|..])
    else
      assert forall t :: (p + t)[..|p|] == p;
      None
  }

  /** The inverse of Hello: splits a greeting into one of the four prefixes
      and a non-empty name, or fails when the text is not a greeting. */
  function ParseGreeting(greeting: string): (parsed: Option<Parsed>)
    ensures parsed.Some? ==> parsed.value.prefix in Prefixes()
    ensures parsed.Some? ==> parsed.value.name != []
    ensures parsed.Some? ==> parsed.value.prefix + parsed.value.name == greeting
    ensures parsed.Some? <==> StartsWithGreetingPrefix(greeting)
  {
    var candidates := [SpanishHelloPrefix, FrenchHelloPrefix, AzerbaijaniHelloPrefix, EnglishHelloPrefix];
    assert forall p | p in Prefixes() ::
             p == candidates[0] || p == candidates[1] || p == candidates[2] || p == candidates[3];
    var parsed := ParseWith(candidates, greeting);
    assert parsed.Some? ==> greeting[..|parsed.value.prefix|] == parsed.value.prefix;
    parsed
  }

  /** Whether the text is one of the four prefixes followed by at least one
      more character. */
  predicate StartsWithGreetingPrefix(text: string)
  {
    exists p | p in Prefixes() :: |p| < |text| && text[..|p|] == p
  }

  /** Tries each candidate prefix in turn. */
  function ParseWith(candidates: seq<string>, greeting: string): (parsed: Option<Parsed>)
    ensures parsed.Some? ==> parsed.value.prefix in candidates
    ensures parsed.Some? ==> parsed.value.name != []
    ensures parsed.Some? ==> parsed.value.prefix + parsed.value.name == greeting
    ensures parsed.None? ==> forall i | 0 <= i < |candidates| ::
                               !(|candidates[i]| < |greeting| && greeting[..|candidates[i]|] == candidates[i])
  {
    if candidates == [] then None
    else
      var rest := StripPrefix(candidates[0], greeting);
      if rest.Some? && rest.value != [] then Some(Parsed(candidates[0], rest.value))
      else
        var c := candidates[0];
        assert |c| <= |greeting| && greeting[..|c|] == c ==> c + greeting[|c|..] == greeting;
        ParseWith(candidates[1..], greeting)
  }

  /** No prefix is the start of a different one, so a text starts with at most
      one of them. */
  lemma PrefixesArePrefixFree(p: string, q: string)
    requires p in Prefixes() && q in Prefixes()
    requires |p| <= |q| && q[..|p|] == p
    ensures p == q
  {
    assert q[..|p|][0] == q[0] && q[..|p|][1] == q[1];
  }

  /** Parsing a greeting gives back the prefix of its language and the name
      that was greeted. */
  lemma ParseHello(name: string, language: string)
    ensures ParseGreeting(Hello(name, language)) == Some(Parsed(GreetingPrefix(language), GreetedName(name)))
  {
    var p, g := GreetingPrefix(language), Hello(name, language);
    var parsed := ParseGreeting(g);
    assert parsed.Some? by {
      assert |p| < |g| && g[..|p|] == p;
    }
    var q := parsed.value.prefix;
    assert g[..|q|] == q && g[..|p|] == p;
    if |q| <= |p| {
      assert p[..|q|] == g[..|q|];
      PrefixesArePrefixFree(q, p);
    } else {
      assert q[..|p|] == g[..|p|];
      PrefixesArePrefixFree(p, q);
    }
    assert parsed.value.name == g[|p|..];
  }

  /** A language whose prefix is the given one; any language outside the
      three recognised ones stands for English. */
  function LanguageOf(prefix: string): (language: string)
    ensures prefix in Prefixes() ==> GreetingPrefix(language) == prefix
  {
    if prefix == SpanishHelloPrefix then Spanish
    else if prefix == FrenchHelloPrefix then French
    else if prefix == AzerbaijaniHelloPrefix then Azerbaijani
    else []
  }

  /** The other half of the round trip: every text that parses is the greeting
      of the parsed name in the language of the parsed prefix. */
  lemma HelloOfParse(greeting: string)
    requires ParseGreeting(greeting).Some?
    ensures Hello(ParseGreeting(greeting).value.name, LanguageOf(ParseGreeting(greeting).value.prefix)) == greeting
  {
  }

  /** A greeting determines the prefix of its language and the greeted name:
      two calls give the same text only when both agree. */
  lemma HelloUnambiguous(name1: string, language1: string, name2: string, language2: string)
    ensures Hello(name1, language1) == Hello(name2, language2) <==>
              GreetingPrefix(language1) == GreetingPrefix(language2) && GreetedName(name1) == GreetedName(name2)
    ensures Hello(name1, language1) == Hello(name2, language2) && name1 != name2 ==>
              {name1, name2} == {[], DefaultName}
  {
    ParseHello(name1, language1);
    ParseHello(name2, language2);
  }

  /** With no name, the greeting is the prefix followed by "World". */
  lemma HelloDefaultsToWorld(language: string)
    ensures Hello([], language) == GreetingPrefix(language) + DefaultName
  {
  }

  /** A non-empty name is greeted unchanged. */
  lemma HelloKeepsName(name: string, language: string)
    requires name != []
    ensures Hello(name, language) == GreetingPrefix(language) + name
  {
  }

  /** Languages are matched exactly: other spellings fall back to English. */
  lemma PrefixExamples()
    ensures GreetingPrefix("Spanish") == "Hola, "
    ensures GreetingPrefix("French") == "Bonjour, "
    ensures GreetingPrefix("Azerbaijani") == "Salam, "
    ensures GreetingPrefix("spanish") == "Hello, "
    ensures GreetingPrefix("FRENCH") == "Hello, "
    ensures GreetingPrefix("English") == "Hello, "
    ensures GreetingPrefix("") == "Hello, "
  {
  }

  /** The value the program's entry point prints. */
  lemma MainGreeting()
    ensures Hello("world", "") == "Hello, world"
  {
  }
}
