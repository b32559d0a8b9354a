/** ASCII case mapping and the case-insensitive comparisons the name registry
    relies on: `String.prototype.toLowerCase` in the list de-duplication, and
    in the create lookup an anchored case-insensitive pattern that the server
    builds as a string and MongoDB evaluates with its PCRE engine under the
    default options. */
module Text {

  predicate IsUpper(c: char) { 'A' <= c <= 'Z' }

  predicate IsLower(c: char) { 'a' <= c <= 'z' }

  /** Lower-case one character; only ASCII capitals change. */
  function LowerChar(c: char): (d: char)
    ensures !IsUpper(d)
    ensures IsUpper(c) ==> IsLower(d) && d as int == c as int + 32
    ensures !IsUpper(c) ==> d == c
  {
    if IsUpper(c) then (c as int + 32) as char else c
  }

  /** Upper-case one character; only ASCII small letters change. On the ASCII
      range this is the case folding the `i` option applies to each character
      before comparing. */
  function UpperChar(c: char): (d: char)
    ensures !IsLower(d)
    ensures IsLower(c) ==> IsUpper(d) && d as int == c as int - 32
    ensures !IsLower(c) ==> d == c
  {
    if IsLower(c) then (c as int - 32) as char else c
  }

  /** `toLowerCase` on the ASCII range. */
  function Lower(s: string): (r: string)
    ensures |r| == |s|
    ensures forall i :: 0 <= i < |s| ==> r[i] == LowerChar(s[i])
  {
    if s == [] then [] else [LowerChar(s[0])] + Lower(s[1..])
  }

  /** Two characters are equal after lower-casing exactly when they are equal
      after upper-casing. */
  lemma CharFoldsAgree(c: char, d: char)
    ensures LowerChar(c) == LowerChar(d) <==> UpperChar(c) == UpperChar(d)
  {
  }

  /** Characters that can carry a meaning in a PCRE pattern outside a
      character class. */
  predicate IsRegexMeta(c: char) {
    c == '\\' || c == '^' || c == '$' || c == '.' || c == '|' || c == '?' || c == '*'
    || c == '+' || c == '(' || c == ')' || c == '[' || c == ']' || c == '{' || c == '}'
  }

  /** A name that, put between `^` and `$`, forms a pattern of literal
      characters only. */
  predicate NoRegexMeta(s: string) {
    forall i :: 0 <= i < |s| ==> !IsRegexMeta(s[i])
  }

  /** A name whose only metacharacter, if any, is the wildcard `.`. */
  predicate WildcardPattern(s: string) {
    forall i :: 0 <= i < |s| ==> s[i] == '.' || !IsRegexMeta(s[i])
  }

  /** Whether the pattern body `name` with the `i` option matches all of
      `subject`: the lengths agree, `.` matches any character but a newline,
      and every other character agrees with the subject's after case
      folding. */
  predicate BodyMatchCI(name: string, subject: string)
    requires WildcardPattern(name)
  {
    |name| == |subject|
    && forall i :: 0 <= i < |name| ==>
         if name[i] == '.' then subject[i] != '\n'
         else UpperChar(name[i]) == UpperChar(subject[i])
  }

  /** `subject` is not empty and its last character is a newline. */
  predicate EndsWithNewline(subject: string) {
    |subject| > 0 && subject[|subject| - 1] == '\n'
  }

  /** Whether the PCRE pattern `^name$` with the `i` option matches `subject`.
      `^` matches only at the start; `$` matches at the end or just before a
      newline that ends the subject. So the body must match the whole subject,
      or the whole subject without such a final newline. */
  predicate AnchoredMatchCI(name: string, subject: string): (m: bool)
    requires WildcardPattern(name)
    ensures m ==> |subject| == |name| || (|subject| == |name| + 1 && EndsWithNewline(subject))
  {
    BodyMatchCI(name, subject)
    || (EndsWithNewline(subject) && BodyMatchCI(name, subject[..|subject| - 1]))
  }

  /** For a pattern of literal characters, the body matches exactly when both
      strings lower-case to the same string. */
  lemma {:induction false} BodyMatchIffSameLower(name: string, subject: string)
    requires NoRegexMeta(name)
    ensures BodyMatchCI(name, subject) <==> Lower(name) == Lower(subject)
  {
    if |name| == |subject| {
      if BodyMatchCI(name, subject) {
        forall i | 0 <= i < |name| ensures Lower(name)[i] == Lower(subject)[i] {
          CharFoldsAgree(name[i], subject[i]);
        }
      }
      if Lower(name) == Lower(subject) {
        forall i | 0 <= i < |name| ensures UpperChar(name[i]) == UpperChar(subject[i]) {
          assert Lower(name)[i] == Lower(subject)[i];
          CharFoldsAgree(name[i], subject[i]);
        }
      }
    } else {
      assert |Lower(name)| != |Lower(subject)|;
    }
  }

  /** The regular-expression lookup of the create path against the lower-case
      comparison of the list path: a stored name matches the pattern built
      from a literal `name` exactly when it lower-cases to the same string as
      `name`, or it does so once a final newline is removed. */
  lemma AnchoredMatchIffSameLower(name: string, subject: string)
    requires NoRegexMeta(name)
    ensures AnchoredMatchCI(name, subject) <==>
      Lower(name) == Lower(subject)
      || (EndsWithNewline(subject) && Lower(name) == Lower(subject[..|subject| - 1]))
  {
    BodyMatchIffSameLower(name, subject);
    if EndsWithNewline(subject) {
      BodyMatchIffSameLower(name, subject[..|subject| - 1]);
    }
  }
}
