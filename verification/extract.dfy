/** Locating the embedded metadata literal in a page (the match/capture part of
    `extract_js_variable`): the leftmost match of the pattern
    `var\s<name>\s=\s(.*?);`, whose group is the text after the assignment up
    to the first `;`, provided no line break comes first. */
module Extractor {
  import opened Wrappers

  /** Python's `\s` for text patterns: the characters for which `str.isspace()` holds. */
  predicate IsSpace(c: char) {
    var n := c as int;
    (9 <= n <= 13) || (28 <= n <= 32) || n == 0x85 || n == 0xA0 || n == 0x1680
    || (0x2000 <= n <= 0x200A) || n == 0x2028 || n == 0x2029 || n == 0x202F
    || n == 0x205F || n == 0x3000
  }

  /** Length of `var<ws><name><ws>=<ws>`: each `\s` is exactly one character. */
  function HeaderLength(name: string): nat {
    |name| + 7
  }

  /** The fixed part of the pattern matches at `p` (the name taken literally). */
  predicate HeaderAt(s: string, name: string, p: nat) {
    && p + HeaderLength(name) <= |s|
    && s[p..p + 3] == "var"
    && IsSpace(s[p + 3])
    && s[p + 4..p + 4 + |name|] == name
    && IsSpace(s[p + 4 + |name|])
    && s[p + 5 + |name|] == '='
    && IsSpace(s[p + 6 + |name|])
  }

  /** The whole pattern matches at `p` with the group ending at the `;` at `j`:
      the lazy group is the shortest run of non-newline characters before a `;`,
      so it holds neither a `;` nor a line break. */
  predicate MatchesAt(s: string, name: string, p: nat, j: nat) {
    && HeaderAt(s, name, p)
    && p + HeaderLength(name) <= j < |s|
    && s[j] == ';'
    && forall k :: p + HeaderLength(name) <= k < j ==> s[k] != ';' && s[k] != '\n'
  }

  datatype Capture = Capture(start: nat, literal: string)

  /** `re.search` of the assignment pattern: the leftmost match and its group,
      or `None` when the pattern matches nowhere. */
  method LocateAssignment(html: string, name: string) returns (r: Option<Capture>)
    ensures r.None? <==> forall p: nat, j: nat :: !MatchesAt(html, name, p, j)
    ensures r.Some? ==>
      var b := r.value.start + HeaderLength(name);
      && MatchesAt(html, name, r.value.start, b + |r.value.literal|)
      && html[b..b + |r.value.literal|] == r.value.literal
    ensures r.Some? ==> forall p: nat, j: nat :: p < r.value.start ==> !MatchesAt(html, name, p, j)
    ensures r.Some? ==> ';' !in r.value.literal && '\n' !in r.value.literal
  {
    var p := 0;
    while p + HeaderLength(name) <= |html|
      invariant forall q: nat, j: nat :: q < p ==> !MatchesAt(html, name, q, j)
      decreases |html| - p
    {
      if HeaderAt(html, name, p) {
        var b := p + HeaderLength(name);
        var j := b;
        while j < |html| && html[j] != ';' && html[j] != '\n'
          invariant b <= j <= |html|
          invariant forall k :: b <= k < j ==> html[k] != ';' && html[k] != '\n'
          decreases |html| - j
        {
          j := j + 1;
        }
        if j < |html| && html[j] == ';' {
          assert MatchesAt(html, name, p, j);
          return Some(Capture(p, html[b..j]));
        }
        forall j': nat ensures !MatchesAt(html, name, p, j') {
          if b <= j' < |html| && j < j' {
            assert !(html[j] != ';' && html[j] != '\n');
          }
        }
      }
      p := p + 1;
    }
    return None;
  }
}
