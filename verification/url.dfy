/** Rewriting a form's view URL into its submission URL (`convert_to_response_url`). */
module ResponseUrl {
  import opened Text

  const ViewPath: string := "/viewform"
  const ResponsePath: string := "/formResponse"

  /** Replaces every occurrence of the view path with the response path, scanning
      left to right without overlap. */
  function ReplaceView(s: string): string
    decreases |s|
  {
    if |s| < |ViewPath| then s
    else if s[..|ViewPath|] == ViewPath then ResponsePath + ReplaceView(s[|ViewPath|..])
    else [s[0]] + ReplaceView(s[1..])
  }

  /** Drops every trailing slash. */
  function StripTrailingSlashes(s: string): (r: string)
    ensures |r| <= |s| && r == s[..|r|]
    ensures |r| == 0 || r[|r| - 1] != '/'
    decreases |s|
  {
    if |s| > 0 && s[|s| - 1] == '/' then StripTrailingSlashes(s[..|s| - 1]) else s
  }

  /** The submission URL: ends with the response path and no longer mentions
      the view path. */
  function ConvertToResponseUrl(url: string): (r: string)
    ensures EndsWith(r, ResponsePath)
    ensures !Contains(r, ViewPath)
    ensures !Contains(url, ViewPath) && EndsWith(url, ResponsePath) ==> r == url
  {
    var replaced := ReplaceView(url);
    ReplaceViewRemovesAll(url);
    ReplaceViewIdentity(url);
    if EndsWith(replaced, ResponsePath) then replaced
    else
      var stem := StripTrailingSlashes(replaced);
      PrefixKeepsAbsence(replaced, stem);
      AppendResponseKeepsAbsence(stem);
      stem + ResponsePath
  }

  /** Converting an already converted URL changes nothing. */
  lemma ConvertIdempotent(url: string)
    ensures ConvertToResponseUrl(ConvertToResponseUrl(url)) == ConvertToResponseUrl(url)
  {
  }

  /** A trailing slash after the view path is not stripped before the suffix
      test, so the response path ends up doubled. */
  lemma TrailingSlashDoublesPath(base: string)
    requires !Contains(base, ViewPath)
    ensures ConvertToResponseUrl(base + ViewPath + "/") == base + ResponsePath + ResponsePath
  {
    var url := base + ViewPath + "/";
    ReplaceViewBeforeView(base, "/");
    var replaced := base + ResponsePath + "/";
    assert ReplaceView(url) == replaced;
    assert replaced[|replaced| - 1] != ResponsePath[|ResponsePath| - 1];
    assert !EndsWith(replaced, ResponsePath);
    assert replaced[..|replaced| - 1] == base + ResponsePath;
    assert StripTrailingSlashes(replaced) == base + ResponsePath;
  }

  /** The conversion as evidently intended: trailing slashes are dropped before
      the view path is replaced, so a trailing slash no longer doubles the
      response path. */
  function FixedResponseUrl(url: string): (r: string)
    ensures EndsWith(r, ResponsePath)
    ensures !Contains(r, ViewPath)
  {
    ConvertToResponseUrl(StripTrailingSlashes(url))
  }

  /** With the fix, a view URL with a trailing slash gets a single response path. */
  lemma FixedTrailingSlash(base: string)
    requires !Contains(base, ViewPath)
    ensures FixedResponseUrl(base + ViewPath + "/") == base + ResponsePath
  {
    var url := base + ViewPath + "/";
    assert url[..|url| - 1] == base + ViewPath;
    assert StripTrailingSlashes(base + ViewPath) == base + ViewPath;
    assert StripTrailingSlashes(url) == base + ViewPath;
    ReplaceViewBeforeView(base, "");
    assert base + ViewPath + "" == base + ViewPath;
    assert ReplaceView(base + ViewPath) == base + ResponsePath;
    assert EndsWith(base + ResponsePath, ResponsePath);
  }

  /** On URLs without a trailing slash the fix changes nothing. */
  lemma FixedAgreesWithoutSlash(url: string)
    requires |url| == 0 || url[|url| - 1] != '/'
    ensures FixedResponseUrl(url) == ConvertToResponseUrl(url)
  {
  }

  /** Text free of the view path passes through the replacement unchanged up to
      the first occurrence that follows it. */
  lemma {:induction false} ReplaceViewBeforeView(base: string, t: string)
    requires !Contains(base, ViewPath)
    ensures ReplaceView(base + ViewPath + t) == base + ResponsePath + ReplaceView(t)
    decreases |base|
  {
    if |base| == 0 {
      var s := ViewPath + t;
      assert base + ViewPath + t == s;
      assert s[..|ViewPath|] == ViewPath;
      assert s[|ViewPath|..] == t;
    } else {
      var rest := base[1..];
      DropFirstKeepsAbsence(base);
      ReplaceViewBeforeView(rest, t);
      ReplaceViewKeepsFirst(base, t);
      assert [base[0]] + (rest + ResponsePath + ReplaceView(t)) == ([base[0]] + rest) + ResponsePath + ReplaceView(t);
      assert [base[0]] + rest == base;
    }
  }

  /** A first character that does not start the view path is copied over. */
  lemma ReplaceViewKeepsFirst(base: string, t: string)
    requires |base| > 0 && !Contains(base, ViewPath)
    ensures ReplaceView(base + ViewPath + t) == [base[0]] + ReplaceView(base[1..] + ViewPath + t)
  {
    var s := base + ViewPath + t;
    NoViewBeforeView(base, t);
    assert s[1..] == base[1..] + ViewPath + t;
  }

  /** A non-empty text free of the view path, followed by the view path, does
      not start with it: the path's only slash would fall in the wrong place. */
  lemma NoViewBeforeView(base: string, t: string)
    requires |base| > 0 && !Contains(base, ViewPath)
    ensures (base + ViewPath + t)[..|ViewPath|] != ViewPath
  {
    var s := base + ViewPath + t;
    if |base| >= |ViewPath| {
      assert !OccursAt(base, ViewPath, 0);
      assert s[..|ViewPath|] == base[..|ViewPath|];
    } else {
      ViewPathSlashOnlyFirst();
      var k := |base|;
      assert s[..|ViewPath|][k] == ViewPath[0] == '/';
      assert ViewPath[k] != '/';
    }
  }

  /** Dropping the first character keeps a text free of the view path. */
  lemma DropFirstKeepsAbsence(s: string)
    requires |s| > 0 && !Contains(s, ViewPath)
    ensures !Contains(s[1..], ViewPath)
  {
    forall i: nat | i <= |s[1..]| ensures !OccursAt(s[1..], ViewPath, i) {
      assert !OccursAt(s, ViewPath, i + 1);
      if i + |ViewPath| <= |s[1..]| {
        assert s[1..][i..i + |ViewPath|] == s[i + 1..i + 1 + |ViewPath|];
      }
    }
  }

  // ---- why no view path survives ----

  lemma ViewPathSlashOnlyFirst()
    ensures forall k :: 0 < k < |ViewPath| ==> ViewPath[k] != '/'
    ensures forall k :: 0 < k < |ResponsePath| ==> ResponsePath[k] != '/'
  {
  }

  lemma PrefixKeepsAbsence(s: string, p: string)
    requires |p| <= |s| && p == s[..|p|]
    requires !Contains(s, ViewPath)
    ensures !Contains(p, ViewPath)
  {
    forall i: nat | i <= |p| ensures !OccursAt(p, ViewPath, i) {
      assert !OccursAt(s, ViewPath, i);
      if i + |ViewPath| <= |p| {
        assert p[i..i + |ViewPath|] == s[i..i + |ViewPath|];
      }
    }
  }

  /** The response path cannot create an occurrence of the view path. */
  lemma PrependResponseKeepsAbsence(t: string)
    requires !Contains(t, ViewPath)
    ensures !Contains(ResponsePath + t, ViewPath)
  {
    var s := ResponsePath + t;
    ViewPathSlashOnlyFirst();
    forall i: nat | i <= |s| ensures !OccursAt(s, ViewPath, i) {
      if i + |ViewPath| <= |s| {
        if i >= |ResponsePath| {
          assert !OccursAt(t, ViewPath, i - |ResponsePath|);
          assert s[i..i + |ViewPath|] == t[i - |ResponsePath|..i - |ResponsePath| + |ViewPath|];
        } else if i == 0 {
          assert s[i..i + |ViewPath|][1] == ResponsePath[1] == 'f';
          assert ViewPath[1] == 'v';
        } else {
          assert s[i..i + |ViewPath|][0] == ResponsePath[i] != '/';
          assert ViewPath[0] == '/';
        }
      }
    }
  }

  lemma AppendResponseKeepsAbsence(x: string)
    requires !Contains(x, ViewPath)
    ensures !Contains(x + ResponsePath, ViewPath)
  {
    var s := x + ResponsePath;
    ViewPathSlashOnlyFirst();
    forall i: nat | i <= |s| ensures !OccursAt(s, ViewPath, i) {
      if i + |ViewPath| <= |s| {
        if i + |ViewPath| <= |x| {
          assert !OccursAt(x, ViewPath, i);
          assert s[i..i + |ViewPath|] == x[i..i + |ViewPath|];
        } else if i < |x| {
          var k := |x| - i;
          assert s[i..i + |ViewPath|][k] != ViewPath[k];
        } else if i == |x| {
          assert s[i..i + |ViewPath|][1] != ViewPath[1];
        } else {
          assert s[i..i + |ViewPath|][0] != ViewPath[0];
        }
      }
    }
  }

  /** What the replacement puts first: the response path's slash when the text
      starts with the view path, else the text's own first character. */
  lemma ReplaceViewFirst(t: string)
    requires |t| > 0
    ensures |ReplaceView(t)| > 0
    ensures ReplaceView(t)[0] == (if |t| >= |ViewPath| && t[..|ViewPath|] == ViewPath then '/' else t[0])
  {
  }

  /** If the replaced text starts with a slash-free word, so did the original. */
  lemma {:induction false} ReplaceViewKeepsSlashFreeStart(t: string, w: string)
    requires '/' !in w
    ensures StartsWith(ReplaceView(t), w) ==> StartsWith(t, w)
    decreases |t|
  {
    var r := ReplaceView(t);
    if StartsWith(r, w) && |w| > 0 && |t| >= |ViewPath| {
      ReplaceViewFirst(t);
      assert r[0] == w[0];
      assert r == [t[0]] + ReplaceView(t[1..]);
      assert ReplaceView(t[1..])[..|w| - 1] == w[1..];
      assert '/' !in w[1..] by {
        forall k | 0 <= k < |w[1..]| ensures w[1..][k] != '/' {
          assert w[1..][k] == w[k + 1];
        }
      }
      ReplaceViewKeepsSlashFreeStart(t[1..], w[1..]);
      assert t[..|w|] == [t[0]] + t[1..][..|w| - 1];
    }
  }

  /** After the replacement no occurrence of the view path is left. */
  lemma {:induction false} ReplaceViewRemovesAll(s: string)
    ensures !Contains(ReplaceView(s), ViewPath)
    decreases |s|
  {
    if |s| < |ViewPath| {
    } else if s[..|ViewPath|] == ViewPath {
      ReplaceViewRemovesAll(s[|ViewPath|..]);
      PrependResponseKeepsAbsence(ReplaceView(s[|ViewPath|..]));
    } else {
      var tail := ReplaceView(s[1..]);
      ReplaceViewRemovesAll(s[1..]);
      var r := [s[0]] + tail;
      assert r == ReplaceView(s);
      NoViewAtFront(s, tail);
      forall i: nat | 0 < i <= |r| ensures !OccursAt(r, ViewPath, i) {
        assert !OccursAt(tail, ViewPath, i - 1);
        if i + |ViewPath| <= |r| {
          assert r[i..i + |ViewPath|] == tail[i - 1..i - 1 + |ViewPath|];
        }
      }
    }
  }

  /** Keeping a first character that does not start the view path cannot make
      the replaced rest start an occurrence at the front. */
  lemma NoViewAtFront(s: string, tail: string)
    requires |s| >= |ViewPath| && s[..|ViewPath|] != ViewPath
    requires tail == ReplaceView(s[1..])
    ensures !OccursAt([s[0]] + tail, ViewPath, 0)
  {
    var r := [s[0]] + tail;
    var w := ViewPath[1..];
    if |ViewPath| <= |r| {
      if s[0] != '/' {
        assert r[..|ViewPath|][0] != ViewPath[0];
      } else {
        ReplaceViewKeepsSlashFreeStart(s[1..], w);
        assert s[..|ViewPath|] == [s[0]] + s[1..][..|w|];
        assert !StartsWith(s[1..], w);
        assert !StartsWith(tail, w);
        assert r[..|ViewPath|] == [r[0]] + tail[..|w|];
        assert r[..|ViewPath|][1..] != w;
      }
    }
  }

  /** Text without the view path is left unchanged by the replacement. */
  lemma {:induction false} ReplaceViewIdentity(s: string)
    ensures !Contains(s, ViewPath) ==> ReplaceView(s) == s
    decreases |s|
  {
    if !Contains(s, ViewPath) && |s| >= |ViewPath| {
      assert !OccursAt(s, ViewPath, 0);
      DropFirstKeepsAbsence(s);
      ReplaceViewIdentity(s[1..]);
      assert [s[0]] + s[1..] == s;
    }
  }
}
