# Greeting formatter

A Dafny model of the greeting formatter in `hello.go`. `Hello(name, language)`
greets `name` in one of four languages. An empty name is replaced by `"World"`.
The greeting is a language prefix followed by the name. `greetingPrefix`
matches the language string exactly: `"Spanish"` gives `"Hola, "`, `"French"`
gives `"Bonjour, "`, `"Azerbaijani"` gives `"Salam, "`, and every other string
gives `"Hello, "`.

Everything is in module `Greeting` (`greeting.dfy`). Both Go functions are pure,
so they become Dafny functions over `string`. The Go constants become `const`s.
Two partners are given:

- `PrefixTable` is an independent statement of the prefix table, as a map lookup
  with English as the default.
- `ParseGreeting` is the inverse of `Hello`. It splits a greeting back into its
  prefix and its name, and both round trips are proved. Since no prefix is the
  start of another (`PrefixesArePrefixFree`), the text of a greeting determines
  both parts.

## Model

| member | source | states |
|---|---|---|
| `Greeting.GreetingPrefix` | hello.go:21-33 | The result is one of the four prefixes, and each is non-empty and ends in `", "`. Each of Spanish, French and Azerbaijani gets its own prefix, in both directions (the prefix is Spanish's exactly when the language is `"Spanish"`, and so on). English is given exactly when the language is none of the three. |
| `Greeting.GreetingPrefixMatchesTable` | hello.go:5-11 | For every language, the switch agrees with a lookup in the constant table from language to prefix, with English as the default. |
| `Greeting.PrefixExamples` | hello.go:22-30 | The three known languages get `"Hola, "`, `"Bonjour, "` and `"Salam, "`. Case variants, `"English"` and `""` all fall back to `"Hello, "`. |
| `Greeting.GreetedName` | hello.go:14-16 | The greeted name is never empty. It is the caller's name when that is non-empty, and `"World"` otherwise. |
| `Greeting.Hello` | hello.go:13-19 | The greeting starts with the language's prefix and is strictly longer than it. What follows the prefix is the name, or `"World"` when the name is empty. The length is the prefix's length plus the name's, or plus 5 for an empty name. |
| `Greeting.HelloDefaultsToWorld` | hello.go:14-18 | `Hello("", language)` is the language's prefix followed by `"World"`, for every language. |
| `Greeting.HelloKeepsName` | hello.go:18 | A non-empty name is passed through unchanged after the prefix. |
| `Greeting.ParseGreeting` | hello.go:8-11 | Inverse of the greeting. It succeeds exactly when the text starts with one of the four prefixes and has more after it. On success, the prefix is one of the four, the name is non-empty, and the prefix followed by the name is the text again. |
| `Greeting.ParseHello` | hello.go:18 | Round trip: parsing `Hello(name, language)` gives back the language's prefix and the greeted name. |
| `Greeting.PrefixesArePrefixFree` | hello.go:8-11 | No one of the four prefixes is the start of a different one. |
| `Greeting.LanguageOf` | hello.go:21-33 | For each of the four prefixes, it gives a language that the switch maps to that prefix. |
| `Greeting.HelloOfParse` | hello.go:13-19 | Every text that parses is the greeting of the parsed name, in a language whose prefix is the parsed one. |
| `Greeting.HelloUnambiguous` | hello.go:13-33 | Two greetings are equal exactly when their prefixes are equal and their greeted names are equal. When two different names give the same greeting, they are `""` and `"World"`. |
| `Greeting.MainGreeting` | hello.go:36 | The value the entry point prints is `"Hello, world"`. |

## Left out

- `main` and `fmt.Println` (hello.go:35-37) do console output. Only the printed value is modelled, by `MainGreeting`.
- Go strings are byte strings, while Dafny's `string` is a sequence of characters. The model uses only equality, concatenation and length, so it needs no byte encoding. The lengths it states are character counts. For the ASCII constants these equal byte counts.
- `CheckWebsites` (the concurrent website checker), `Repeat` and the reflection walker `walk` live in other packages of the repository. They are outside this model, which covers hello.go only. `walk` relies on Go's `reflect` package, channels and function values.
- Test helpers and benchmarks (`assertContains`, `mockWebsiteChecker`, `slowStubWebsiteChecker`) are test scaffolding, not program logic.
