/** The object-key builder `generateFilename` of `src/lib/r2.ts`. The
    clock reading (`Date.now()`) and the random text
    (`Math.random().toString(36).substring(2, 8)`) are parameters. */
module R2 {
  import opened Wrappers
  import Strings
  import JsStrings

  /** A character `[^a-zA-Z0-9-]` does not delete. */
  predicate Allowed(c: char) {
    ('a' <= c <= 'z') || ('A' <= c <= 'Z') || ('0' <= c <= '9') || c == '-'
  }

  /** A character of the final name: `[a-z0-9-]`. */
  predicate NameChar(c: char) {
    ('a' <= c <= 'z') || ('0' <= c <= '9') || c == '-'
  }

  /** `s.replace(/[^a-zA-Z0-9-]/g, '')`. */
  function KeepAllowed(s: string): (r: string)
    ensures |r| <= |s|
    ensures forall k :: 0 <= k < |r| ==> Allowed(r[k])
  {
    if s == [] then [] else (if Allowed(s[0]) then [s[0]] else []) + KeepAllowed(s[1..])
  }

  /** `sanitizedName`: white-space runs become `-`, every other character
      outside `[a-zA-Z0-9-]` is deleted, then the text is lower-cased. */
  function Sanitize(name: string): string {
    JsStrings.ToLower(KeepAllowed(JsStrings.ReplaceSpaceRuns(name, "-")))
  }

  /** `s.substring(0, s.lastIndexOf('.')) || s`: `substring` clamps the
      end -1 to 0, and the empty text is falsy. */
  function WithoutExt(s: string): string {
    var i := Strings.LastIndexOfChar(s, '.');
    var base := if i <= 0 then "" else s[..i];
    if base != "" then base else s
  }

  /** `generateFilename`; `extension` defaults to `webp`. */
  function GenerateFilename(originalName: string, extension: Option<string>, timestamp: nat, random: string): string {
    var sanitizedName := Sanitize(originalName);
    "blog/" + WithoutExt(sanitizedName) + "-" + JsStrings.NatToString(timestamp) + "-" + random + "." + extension.GetOr("webp")
  }

  /** Deleting leaves only allowed characters, and keeps text made of them
      as it is. */
  lemma {:induction false} KeepAllowedKeeps(s: string)
    requires forall k :: 0 <= k < |s| ==> Allowed(s[k])
    ensures KeepAllowed(s) == s
  {
    if s != [] {
      KeepAllowedKeeps(s[1..]);
      assert s == [s[0]] + s[1..];
    }
  }

  /** The sanitised name holds only `[a-z0-9-]`; in particular no `.`. */
  lemma {:induction false} SanitizeChars(name: string)
    ensures forall k :: 0 <= k < |Sanitize(name)| ==> NameChar(Sanitize(name)[k])
  {
    var kept := KeepAllowed(JsStrings.ReplaceSpaceRuns(name, "-"));
    JsStrings.ToLowerAscii(kept);
  }

  /** Sanitising a sanitised name changes nothing. */
  lemma {:induction false} SanitizeIdempotent(name: string)
    ensures Sanitize(Sanitize(name)) == Sanitize(name)
  {
    var s := Sanitize(name);
    SanitizeChars(name);
    JsStrings.ReplaceSpaceRunsNoSpace(s, "-");
    KeepAllowedKeeps(s);
    JsStrings.ToLowerAscii(s);
    assert JsStrings.ToLower(s) == s;
  }

  /** With no `.` in the name, `lastIndexOf` is -1 and the whole name is
      kept. */
  lemma {:induction false} WithoutExtNoDot(s: string)
    requires '.' !in s
    ensures WithoutExt(s) == s
  {
  }

  /** The key is `blog/`, the whole sanitised name, `-`, the timestamp's
      digits, `-`, the random text, `.` and the extension (`webp` when none
      is given). */
  lemma {:induction false} FilenameShape(originalName: string, extension: Option<string>, timestamp: nat, random: string)
    ensures GenerateFilename(originalName, extension, timestamp, random)
      == "blog/" + Sanitize(originalName) + "-" + JsStrings.NatToString(timestamp) + "-" + random + "."
         + (if extension.Some? then extension.value else "webp")
  {
    SanitizeChars(originalName);
    WithoutExtNoDot(Sanitize(originalName));
  }
}
