/** The avatar initials the front end shows beside each participant
    (getInitialsFromParticipant in src/static/app.js): up to two upper-case characters
    taken from the part of an email before the '@', or from a name. */
module Avatar {

  /** JavaScript's `\s` class: the WhiteSpace and LineTerminator code points. */
  predicate IsJsWhitespace(c: char) {
    || '\t' <= c <= '\r'
    || c == ' '
    || c == '\U{00A0}'
    || c == '\U{1680}'
    || '\U{2000}' <= c <= '\U{200A}'
    || c == '\U{2028}'
    || c == '\U{2029}'
    || c == '\U{202F}'
    || c == '\U{205F}'
    || c == '\U{3000}'
    || c == '\U{FEFF}'
  }

  /** A character of the class `[\s._-]` that separates the parts of a name. */
  predicate IsSeparator(c: char) {
    IsJsWhitespace(c) || c == '.' || c == '_' || c == '-'
  }

  predicate NoSeparator(s: string) {
    forall i :: 0 <= i < |s| ==> !IsSeparator(s[i])
  }

  predicate AllSeparators(s: string) {
    forall i :: 0 <= i < |s| ==> IsSeparator(s[i])
  }

  /** `s.split("@")[0]`: the text before the first '@', or all of `s` when it has none. */
  function BeforeFirstAt(s: string): (r: string)
    ensures r <= s
    ensures '@' !in r
    ensures |r| < |s| ==> s[|r|] == '@'
  {
    if s == [] then []
    else if s[0] == '@' then []
    else [s[0]] + BeforeFirstAt(s[1..])
  }

  /** `s` without its leading run of separators. */
  function DropSeparators(s: string): (r: string)
    ensures |r| <= |s| && r == s[|s| - |r|..]
    ensures AllSeparators(s[..|s| - |r|])
    ensures r == [] || !IsSeparator(r[0])
  {
    if s != [] && IsSeparator(s[0]) then DropSeparators(s[1..]) else s
  }

  /** `s.split(/[\s._-]+/)`: the pieces between maximal runs of separators, with an empty
      piece before a leading run and after a trailing run, and [""] for the empty string. */
  function SplitOnRuns(s: string): (pieces: seq<string>)
    ensures |pieces| >= 1
    ensures forall k :: 0 <= k < |pieces| ==> NoSeparator(pieces[k])
    decreases |s|
  {
    if s == [] then [""]
    else if IsSeparator(s[0]) then [""] + SplitOnRuns(DropSeparators(s))
    else
      var rest := SplitOnRuns(s[1..]);
      [[s[0]] + rest[0]] + rest[1..]
  }

  /** `pieces.filter(Boolean)`: the non-empty pieces, in order. */
  function NonEmpty(pieces: seq<string>): (r: seq<string>)
    ensures forall k :: 0 <= k < |r| ==> r[k] != [] && r[k] in pieces
    ensures forall p :: p in pieces && p != [] ==> p in r
  {
    if pieces == [] then []
    else (if pieces[0] == [] then [] else [pieces[0]]) + NonEmpty(pieces[1..])
  }

  /** The name parts of `raw`: every one non-empty and free of separators. */
  function Parts(raw: string): (parts: seq<string>)
    ensures forall k :: 0 <= k < |parts| ==> parts[k] != [] && NoSeparator(parts[k])
  {
    NonEmpty(SplitOnRuns(raw))
  }

  /** `toUpperCase` on one character, restricted to ASCII. */
  function UpperChar(c: char): (u: char)
    ensures !('a' <= u <= 'z')
    ensures 'a' <= c <= 'z' ==> 'A' <= u <= 'Z' && u as int - 'A' as int == c as int - 'a' as int
    ensures !('a' <= c <= 'z') ==> u == c
  {
    if 'a' <= c <= 'z' then (c as int - 32) as char else c
  }

  function ToUpper(s: string): (r: string)
    ensures |r| == |s| && forall i :: 0 <= i < |s| ==> r[i] == UpperChar(s[i])
    ensures forall i :: 0 <= i < |r| ==> !('a' <= r[i] <= 'z')
  {
    seq(|s|, i requires 0 <= i < |s| => UpperChar(s[i]))
  }

  /** `s.slice(0, n)`. */
  function Prefix(s: string, n: nat): (r: string)
    ensures r <= s
    ensures |r| == if |s| <= n then |s| else n
  {
    if |s| <= n then s else s[..n]
  }

  /** getInitialsFromParticipant: at most two characters, none of them a lower-case letter. */
  function Initials(participant: string): (r: string)
    ensures |r| <= 2
    ensures forall i :: 0 <= i < |r| ==> !('a' <= r[i] <= 'z')
  {
    if participant == "" then ""
    else
      var raw := BeforeFirstAt(participant);
      var parts := Parts(raw);
      if |parts| == 0 then ToUpper(Prefix(raw, 2))
      else if |parts| == 1 then ToUpper(Prefix(parts[0], 2))
      else ToUpper([parts[0][0], parts[1][0]])
  }

  // ---- Independent descriptions of the parts ----

  /** Every word is non-empty and free of separators. */
  predicate Words(ws: seq<string>) {
    forall k :: 0 <= k < |ws| ==> ws[k] != [] && NoSeparator(ws[k])
  }

  /** Every run is a non-empty run of separators. */
  predicate SeparatorRuns(seps: seq<string>) {
    forall k :: 0 <= k < |seps| ==> seps[k] != [] && AllSeparators(seps[k])
  }

  /** The words `ws` with the run `seps[k]` between `ws[k]` and `ws[k + 1]`. Put between
      a leading and a trailing run of separators, this builds every string that has a part. */
  function JoinRuns(ws: seq<string>, seps: seq<string>): (r: string)
    requires |ws| == |seps| + 1
    ensures ws[0] <= r
    decreases |seps|
  {
    if seps == [] then ws[0] else ws[0] + seps[0] + JoinRuns(ws[1..], seps[1..])
  }

  function Concat(ps: seq<string>): string {
    if ps == [] then [] else ps[0] + Concat(ps[1..])
  }

  /** `s` with every separator character deleted. */
  function RemoveSeparators(s: string): string {
    if s == [] then []
    else (if IsSeparator(s[0]) then [] else [s[0]]) + RemoveSeparators(s[1..])
  }
}
