# Contributor value type — a Dafny model

This project models `Contributor`, the value that names the originator of a
contribution in skill-view-core: a required name and an optional email, built
by the factories `of(name)` and `of(name, email)` and compared by value through
a hand-written `equals` and `hashCode`.

Files:

- `wrappers.dfy` — `Option` (the value of `java.util.Optional`) and `Result`
  (a value or a thrown exception).
- `java_lang.dfy` — module `JavaLang`: the pieces of Java the type relies on.
  Nullable references (`Nullable`), `Optional.ofNullable`, wrapping 32-bit
  `int` arithmetic, the UTF-16 representation of strings, `String.equals`,
  `String.valueOf` of a nullable string (null becomes the text `"null"`), and
  `String.hashCode` as a left-to-right `h = 31*h + unit` fold that wraps.
- `contributor.dfy` — module `ContributorApi`: the `Contributor` datatype,
  which holds the two captured factory parameters, the factories, the
  accessors, `equals`, `hashCode` and the lemmas about them.

The type is immutable and has no loops, so it is modelled as datatypes,
functions and lemmas. The main results are these:

- `equals` holds exactly for equal (name, email) values. It is therefore an
  equivalence relation.
- `hashCode` is consistent with `equals`.
- `hashCode` equals the polynomial `u[0]*31^(n-1) + … + u[n-1]`, reduced to a
  signed 32-bit `int`. The `u[i]` are the UTF-16 code units of the name
  followed by those of the email, or of `"null"` when there is no email.

The code differs from a stricter reading of the documentation in one place.
The doc-comments ask callers for a name that is not whitespace. The factory
only rejects a null name: it throws `NullPointerException` with the message
`"name"`. Empty and blank names are accepted. The model follows the code
(`Of`, `BlankNamesAccepted`). A non-blank name is modelled only as a caller
obligation (`GetNameNotBlank`).

## Model

| member | source | states |
|---|---|---|
| `ContributorApi.Of` | src/main/java/org/sjanisch/skillview/core/contribution/api/Contributor.java:73-75 | construction fails exactly when the name is null, with a NullPointerException whose message is "name"; otherwise the contributor holds the name and the email exactly as passed |
| `ContributorApi.OfName` | src/main/java/org/sjanisch/skillview/core/contribution/api/Contributor.java:61-63 | of(name) fails exactly for a null name and otherwise keeps the name with a null email |
| `ContributorApi.GetName` | src/main/java/org/sjanisch/skillview/core/contribution/api/Contributor.java:77-80 | getName() returns the captured name |
| `ContributorApi.GetEmail` | src/main/java/org/sjanisch/skillview/core/contribution/api/Contributor.java:82-85 | getEmail() is empty exactly when the captured email is null and otherwise holds it |
| `ContributorApi.Equals` | src/main/java/org/sjanisch/skillview/core/contribution/api/Contributor.java:98-113 | equals(Object): true only for a contributor argument whose name is String.equals to this name and whose email is, like this one, present and String.equals to it, or absent; false for null and other types |
| `ContributorApi.GetNameOf` | src/main/java/org/sjanisch/skillview/core/contribution/api/Contributor.java:77-80 | a non-null name always constructs, and getName() returns exactly that name, un-normalised |
| `ContributorApi.GetEmailOf` | src/main/java/org/sjanisch/skillview/core/contribution/api/Contributor.java:82-85 | getEmail() is empty exactly when the email passed in was null, and otherwise holds that email |
| `ContributorApi.OfNameHasNoEmail` | src/main/java/org/sjanisch/skillview/core/contribution/api/Contributor.java:61-63 | of(name) is of(name, null): it fails exactly for a null name, and otherwise keeps the name and has no email |
| `ContributorApi.BlankNamesAccepted` | src/main/java/org/sjanisch/skillview/core/contribution/api/Contributor.java:73-74 | the empty name and a blank name are accepted: null is the only rejected input |
| `ContributorApi.GetNameNotBlank` | src/main/java/org/sjanisch/skillview/core/contribution/api/Contributor.java:43-47 | getName() is not blank when the caller kept the obligation of passing a non-blank name |
| `ContributorApi.EqualsCharacterised` | src/main/java/org/sjanisch/skillview/core/contribution/api/Contributor.java:98-113 | equals against a contributor holds iff the names are equal and either both emails are present and equal or both are absent |
| `ContributorApi.PresentEmailNeverEqualsAbsent` | src/main/java/org/sjanisch/skillview/core/contribution/api/Contributor.java:102-110 | a contributor with an email never equals one without, in either direction, whatever the names |
| `ContributorApi.EqualsNonContributorIsFalse` | src/main/java/org/sjanisch/skillview/core/contribution/api/Contributor.java:99-112 | equals against null or against an object that is not a contributor is false |
| `ContributorApi.EqualsIsValueEquality` | src/main/java/org/sjanisch/skillview/core/contribution/api/Contributor.java:98-113 | equals against a contributor holds exactly when the two (name, email) values are equal |
| `ContributorApi.EqualsReflexive` | src/main/java/org/sjanisch/skillview/core/contribution/api/Contributor.java:33-34 | every contributor equals itself |
| `ContributorApi.EqualsSymmetric` | src/main/java/org/sjanisch/skillview/core/contribution/api/Contributor.java:33-34 | a equals b iff b equals a |
| `ContributorApi.EqualsTransitive` | src/main/java/org/sjanisch/skillview/core/contribution/api/Contributor.java:33-34 | a equals b and b equals c imply a equals c |
| `ContributorApi.EqualsExamples` | src/main/java/org/sjanisch/skillview/core/contribution/api/Contributor.java:98-113 | of("A","x") equals of("A","x"); of("A") equals of("A"); of("A","x") does not equal of("A"); of("A") does not equal of("a") |
| `ContributorApi.HashCode` | src/main/java/org/sjanisch/skillview/core/contribution/api/Contributor.java:92-95 | hashCode() is a 32-bit int |
| `ContributorApi.HashConsistentWithEquals` | src/main/java/org/sjanisch/skillview/core/contribution/api/Contributor.java:92-113 | equal contributors have equal hash codes |
| `ContributorApi.HashCodeIsPolynomial` | src/main/java/org/sjanisch/skillview/core/contribution/api/Contributor.java:94 | hashCode() is the polynomial in 31 over the UTF-16 units of the name followed by the email or "null", reduced to a signed 32-bit int |
| `ContributorApi.HashNotInjective` | src/main/java/org/sjanisch/skillview/core/contribution/api/Contributor.java:94 | of("A") and of("A", "null") have the same hash but are not equal |
| `JavaLang.OfNullable` | src/main/java/org/sjanisch/skillview/core/contribution/api/Contributor.java:84 | Optional.ofNullable is empty exactly for null and otherwise holds the referenced value |
| `JavaLang.StringValueOf` | src/main/java/org/sjanisch/skillview/core/contribution/api/Contributor.java:94 | string concatenation turns a null email into the text "null" and a non-null one into itself |
| `JavaLang.ToInt32` | src/main/java/org/sjanisch/skillview/core/contribution/api/Contributor.java:94 | the wrapped int is in the int range and congruent to the mathematical value modulo 2^32 |
| `JavaLang.ToInt32Shift` | src/main/java/org/sjanisch/skillview/core/contribution/api/Contributor.java:94 | wrapping forgets multiples of 2^32 |
| `JavaLang.CharUnits` | src/main/java/org/sjanisch/skillview/core/contribution/api/Contributor.java:94 | a character is one non-surrogate code unit equal to it, or a high and a low surrogate that decode back to it |
| `JavaLang.Utf16` | src/main/java/org/sjanisch/skillview/core/contribution/api/Contributor.java:94 | the code units a Java String holds: the UTF-16 units of each character in turn, as `CharUnits` gives them |
| `JavaLang.Utf16Append` | src/main/java/org/sjanisch/skillview/core/contribution/api/Contributor.java:94 | the code units of name + email are those of the name followed by those of the email |
| `JavaLang.Utf16Injective` | src/main/java/org/sjanisch/skillview/core/contribution/api/Contributor.java:101-103 | strings with the same code units are the same string |
| `JavaLang.StringEqualsIsEquality` | src/main/java/org/sjanisch/skillview/core/contribution/api/Contributor.java:101-103 | String.equals, used for the names and the emails, holds exactly for equal strings |
| `JavaLang.PolynomialSnoc` | src/main/java/org/sjanisch/skillview/core/contribution/api/Contributor.java:94 | appending a code unit multiplies the hash polynomial by 31 and adds the unit |
| `JavaLang.StringHash` | src/main/java/org/sjanisch/skillview/core/contribution/api/Contributor.java:94 | String.hashCode of any code units is a 32-bit int |
| `JavaLang.StringEquals` | src/main/java/org/sjanisch/skillview/core/contribution/api/Contributor.java:101-103 | String.equals: the two strings hold the same UTF-16 code units in the same order |
| `JavaLang.Polynomial` | src/main/java/org/sjanisch/skillview/core/contribution/api/Contributor.java:94 | the documented String.hashCode polynomial u[0]*31^(n-1) + ... + u[n-1], computed without overflow |
| `JavaLang.StringHashIsPolynomial` | src/main/java/org/sjanisch/skillview/core/contribution/api/Contributor.java:94 | the wrapping h = 31*h + unit fold equals the polynomial u[0]*31^(n-1) + … + u[n-1] reduced to a signed 32-bit int |
| `JavaLang.JavaHashCode` | src/main/java/org/sjanisch/skillview/core/contribution/api/Contributor.java:94 | the hash of a string is a 32-bit int |

## Left out

- `toString`: it is for diagnostics only. It relies on reflection (`getClass().getSimpleName()`) and `String.format`.
- Thread-safety and immutability of implementations: there is no concurrency here. A Dafny datatype cannot be changed, so immutability holds by construction.
- `instanceof` over arbitrary objects: the argument of `equals(Object)` is reduced to null, an object of another type, or a contributor value.
- Other implementations of the `Contributor` interface: `equals` reads the other object only through `getName()` and `getEmail()`. The model therefore represents any argument that is a contributor by the (name, email) value those accessors return.
- Unpaired surrogates: a Java string may contain a lone surrogate code unit. A Dafny string cannot, so such names and emails are not modelled.
- `ContributorApi.IsWhitespace`: it covers only the ASCII characters that `Character.isWhitespace` accepts. The non-blank name is only a documented caller obligation that the code never checks.
- Whitespace rejection: the factory does not check for a whitespace name, so it is not modelled as a construction failure.
- `String.hashCode` caches its result in the string. This is invisible to callers and is not modelled.
