/** Page keys: the name a URL path is compared by when the navigation decides
    which link belongs to the current page (script.js, normalizePageKey).

    The path is split on '/', empty segments are dropped, the last remaining
    segment is lower-cased, one trailing ".html" is removed, and an empty or
    "index" result becomes "index". */
module PageKey {

  /** The path segments `path.split('/')` produces: always at least one,
      none containing '/'. */
  function Split(s: string): (parts: seq<string>)
    ensures |parts| >= 1
    ensures forall i :: 0 <= i < |parts| ==> '/' !in parts[i]
  {
    if s == [] then [""]
    else if s[0] == '/' then [""] + Split(s[1..])
    else
      var rest := Split(s[1..]);
      [[s[0]] + rest[0]] + rest[1..]
  }

  /** The inverse of Split: the segments glued back with '/'. */
  function Join(parts: seq<string>): string
    requires |parts| >= 1
  {
    if |parts| == 1 then parts[0] else parts[0] + "/" + Join(parts[1..])
  }

  /** `parts.filter(Boolean)`: the non-empty segments, in order. */
  function NonEmpty(parts: seq<string>): (r: seq<string>)
    ensures |r| <= |parts|
    ensures forall i :: 0 <= i < |r| ==> r[i] != "" && r[i] in parts
    ensures forall x :: x in parts && x != "" ==> x in r
  {
    if parts == [] then []
    else if parts[0] == "" then NonEmpty(parts[1..])
    else [parts[0]] + NonEmpty(parts[1..])
  }

  /** `parts[parts.length - 1] || ''`. */
  function Last(parts: seq<string>): (r: string)
    ensures parts == [] ==> r == ""
  {
    if parts == [] then "" else parts[|parts| - 1]
  }

  /** Appending a segment makes it the last one. */
  lemma LastOfAppend(parts: seq<string>, x: string)
    ensures Last(parts + [x]) == x
  {
  }

  /** The last non-empty segment of a path, or "" when there is none. */
  function LastSegment(path: string): (seg: string)
    ensures '/' !in seg
  {
    Last(NonEmpty(Split(path)))
  }

  predicate IsUpper(c: char)
  {
    'A' <= c <= 'Z'
  }

  /** `toLowerCase` on one character, for the ASCII letters. */
  function LowerChar(c: char): (d: char)
    ensures !IsUpper(d)
    ensures d == '/' <==> c == '/'
    ensures !IsUpper(c) ==> d == c
    ensures IsUpper(c) ==> 'a' <= d <= 'z' && d as int - 'a' as int == c as int - 'A' as int
  {
    if IsUpper(c) then (c as int + 32) as char else c
  }

  function Lower(s: string): (r: string)
    ensures |r| == |s|
    ensures forall i :: 0 <= i < |s| ==> r[i] == LowerChar(s[i])
  {
    seq(|s|, i requires 0 <= i < |s| => LowerChar(s[i]))
  }

  /** `toLowerCase` leaves no upper-case letter, and a string without one is
      unchanged. */
  lemma LowerOfLower(s: string)
    ensures IsLower(Lower(s))
    ensures IsLower(s) ==> Lower(s) == s
  {
    if IsLower(s) {
      assert forall i :: 0 <= i < |s| ==> Lower(s)[i] == s[i];
    }
  }

  /** No upper-case ASCII letter occurs in `s`. */
  predicate IsLower(s: string)
  {
    forall i :: 0 <= i < |s| ==> !IsUpper(s[i])
  }

  predicate HasHtmlSuffix(s: string)
  {
    |s| >= 5 && s[|s| - 5..] == ".html"
  }

  /** `replace(/\.html$/, '')`: removes one trailing ".html", if present. */
  function StripHtml(s: string): (r: string)
    ensures HasHtmlSuffix(s) ==> r + ".html" == s
    ensures !HasHtmlSuffix(s) ==> r == s
  {
    if HasHtmlSuffix(s) then s[..|s| - 5] else s
  }

  /** normalizePageKey (script.js:21-28). */
  function Normalize(path: string): (key: string)
    ensures key != ""
    ensures '/' !in key
    ensures IsLower(key)
  {
    var lowered := Lower(LastSegment(path));
    var last := StripHtml(lowered);
    assert forall i :: 0 <= i < |last| ==> last[i] == lowered[i];
    assert IsLower("index") && '/' !in "index" by {
      assert "index" == ['i', 'n', 'd', 'e', 'x'];
    }
    if last == "" || last == "index" then "index" else last
  }

  // ---------------------------------------------------------------------
  // Splitting and joining

  lemma {:induction false} SplitNoSlash(s: string)
    requires '/' !in s
    ensures Split(s) == [s]
  {
    if s != [] {
      assert s[0] in s;
      assert '/' !in s[1..] by {
        forall c | c in s[1..] ensures c != '/' {
          var k :| 0 <= k < |s[1..]| && s[1..][k] == c;
          assert s[k + 1] == c;
        }
      }
      SplitNoSlash(s[1..]);
      assert [s[0]] + s[1..] == s;
    }
  }

  /** A '/' separates the segments on its two sides. */
  lemma {:induction false} SplitConcat(a: string, b: string)
    ensures Split(a + "/" + b) == Split(a) + Split(b)
  {
    var s := a + "/" + b;
    if a == [] {
      assert s[0] == '/' && s[1..] == b;
    } else {
      assert s[0] == a[0];
      assert s[1..] == a[1..] + "/" + b;
      SplitConcat(a[1..], b);
    }
  }

  /** Joining the split segments gives the path back. */
  lemma {:induction false} JoinSplit(s: string)
    ensures Join(Split(s)) == s
  {
    if s == [] {
    } else if s[0] == '/' {
      JoinSplit(s[1..]);
      assert Split(s)[1..] == Split(s[1..]);
      assert s == "/" + s[1..];
    } else {
      var rest := Split(s[1..]);
      JoinSplit(s[1..]);
      if |rest| == 1 {
        assert [s[0]] + s[1..] == s;
      } else {
        var parts := Split(s);
        assert parts[1..] == rest[1..];
        assert Join(parts) == [s[0]] + rest[0] + "/" + Join(rest[1..]);
        assert [s[0]] + (rest[0] + "/" + Join(rest[1..])) == s;
      }
    }
  }

  /** Splitting joined slash-free segments gives the segments back. */
  lemma {:induction false} SplitJoin(parts: seq<string>)
    requires |parts| >= 1
    requires forall i :: 0 <= i < |parts| ==> '/' !in parts[i]
    ensures Split(Join(parts)) == parts
  {
    SplitNoSlash(parts[0]);
    if |parts| > 1 {
      SplitJoin(parts[1..]);
      SplitConcat(parts[0], Join(parts[1..]));
      assert [parts[0]] + parts[1..] == parts;
    }
  }

  lemma {:induction false} NonEmptyConcat(a: seq<string>, b: seq<string>)
    ensures NonEmpty(a + b) == NonEmpty(a) + NonEmpty(b)
  {
    if a == [] {
      assert a + b == b;
    } else {
      assert (a + b)[0] == a[0];
      assert (a + b)[1..] == a[1..] + b;
      NonEmptyConcat(a[1..], b);
    }
  }

  /** On one segment, the filter keeps it exactly when it is non-empty; with
      NonEmptyConcat this determines the filter on every list. */
  lemma NonEmptySingle(x: string)
    ensures NonEmpty([x]) == if x == "" then [] else [x]
  {
    assert [x][1..] == [];
  }

  // ---------------------------------------------------------------------
  // Which segment counts

  /** A trailing '/' does not change the last segment. */
  lemma TrailingSlashIgnored(p: string)
    ensures LastSegment(p + "/") == LastSegment(p)
  {
    assert p + "/" == p + "/" + "";
    SplitConcat(p, "");
    NonEmptyConcat(Split(p), [""]);
  }

  /** Two '/' in a row act as one. */
  lemma RepeatedSlashIgnored(a: string, b: string)
    ensures LastSegment(a + "//" + b) == LastSegment(a + "/" + b)
  {
    var sa, sb := Split(a), Split(b);
    assert a + "//" + b == a + "/" + ("/" + b);
    SplitConcat(a, "/" + b);
    SplitLeadingSlash(b);
    assert Split(a + "//" + b) == sa + ([""] + sb);
    NonEmptyConcat(sa, [""] + sb);
    NonEmptyConcat([""], sb);
    assert NonEmpty([""] + sb) == NonEmpty(sb);
    SplitConcat(a, b);
    NonEmptyConcat(sa, sb);
  }

  lemma SplitLeadingSlash(b: string)
    ensures Split("/" + b) == [""] + Split(b)
  {
    assert ("/" + b)[0] == '/' && ("/" + b)[1..] == b;
  }

  /** Everything before the last non-empty segment is ignored. */
  lemma OnlyLastSegmentCounts(a: string, b: string)
    requires LastSegment(b) != ""
    ensures LastSegment(a + "/" + b) == LastSegment(b)
  {
    SplitConcat(a, b);
    NonEmptyConcat(Split(a), Split(b));
  }

  predicate AllSlashes(p: string)
  {
    forall i :: 0 <= i < |p| ==> p[i] == '/'
  }

  /** A path has no segment exactly when it is made of slashes only. */
  lemma {:induction false} NoSegmentIffAllSlashes(p: string)
    ensures LastSegment(p) == "" <==> AllSlashes(p)
  {
    if p == [] {
    } else if p[0] == '/' {
      NoSegmentIffAllSlashes(p[1..]);
      assert Split(p) == [""] + Split(p[1..]);
      NonEmptyConcat([""], Split(p[1..]));
      assert AllSlashes(p) <==> AllSlashes(p[1..]) by {
        if AllSlashes(p[1..]) {
          forall i | 0 <= i < |p| ensures p[i] == '/' {
            if i > 0 { assert p[1..][i - 1] == p[i]; }
          }
        }
      }
    } else {
      var parts := Split(p);
      assert parts[0] != "";
      assert parts == [parts[0]] + parts[1..];
      NonEmptyConcat([parts[0]], parts[1..]);
      var ne := NonEmpty(parts);
      assert |ne| > 0;
      assert ne[|ne| - 1] != "";
    }
  }

  // ---------------------------------------------------------------------
  // Page keys

  /** Any path made of slashes only, the empty path included, is the home page. */
  lemma SlashesAreIndex(p: string)
    requires AllSlashes(p)
    ensures Normalize(p) == "index"
  {
    NoSegmentIffAllSlashes(p);
  }

  lemma TrailingSlashKey(p: string)
    ensures Normalize(p + "/") == Normalize(p)
  {
    TrailingSlashIgnored(p);
  }

  lemma RepeatedSlashKey(a: string, b: string)
    ensures Normalize(a + "//" + b) == Normalize(a + "/" + b)
  {
    RepeatedSlashIgnored(a, b);
  }

  lemma LastSegmentKey(a: string, b: string)
    requires !AllSlashes(b)
    ensures Normalize(a + "/" + b) == Normalize(b)
  {
    NoSegmentIffAllSlashes(b);
    OnlyLastSegmentCounts(a, b);
  }

  /** The last segment of "/" + seg, for a slash-free seg. */
  lemma SingleSegment(seg: string)
    requires seg != "" && '/' !in seg
    ensures LastSegment("/" + seg) == seg
  {
    SplitLeadingSlash(seg);
    SplitNoSlash(seg);
    NonEmptyConcat([""], [seg]);
  }

  /** The key of a path with one segment, spelled out. */
  lemma {:induction false} SegmentKey(seg: string, lowered: string, stripped: string)
    requires seg != "" && '/' !in seg
    requires lowered == Lower(seg) && stripped == StripHtml(lowered)
    ensures Normalize("/" + seg) == if stripped == "" || stripped == "index" then "index" else stripped
  {
    SingleSegment(seg);
  }

  /** "/index" names the home page. */
  lemma IndexIsHome()
    ensures Normalize("/index") == "index"
  {
    assert Lower("index") == "index";
    SegmentKey("index", "index", "index");
  }

  /** "/index.html" names the home page. */
  lemma IndexHtmlIsHome()
    ensures Normalize("/index.html") == "index"
  {
    assert Lower("index.html") == "index.html";
    assert HasHtmlSuffix("index.html");
    SegmentKey("index.html", "index.html", "index");
  }

  /** "/INDEX.HTML" names the home page too: case does not matter. */
  lemma UpperIndexIsHome()
    ensures Normalize("/INDEX.HTML") == "index"
  {
    assert Lower("INDEX.HTML") == "index.html";
    assert HasHtmlSuffix("index.html");
    SegmentKey("INDEX.HTML", "index.html", "index");
  }

  /** Lower-casing happens before the suffix is removed. */
  lemma UpperCaseSuffix()
    ensures Normalize("/About.HTML") == "about"
  {
    assert Lower("About.HTML") == "about.html";
    assert HasHtmlSuffix("about.html");
    SegmentKey("About.HTML", "about.html", "about");
  }

  /** Only one ".html" is removed. */
  lemma SuffixStrippedOnce()
    ensures Normalize("/a.html.html") == "a.html"
  {
    assert Lower("a.html.html") == "a.html.html";
    assert HasHtmlSuffix("a.html.html");
    SegmentKey("a.html.html", "a.html.html", "a.html");
  }

  /** A key that already is a lower-case, slash-free name without the ".html"
      suffix is its own key. */
  lemma KeyIsStable(k: string)
    requires k != "" && '/' !in k && IsLower(k) && !HasHtmlSuffix(k)
    ensures Normalize(k) == k
  {
    SplitNoSlash(k);
    assert NonEmpty([k]) == [k];
    assert Lower(k) == k;
  }
}
