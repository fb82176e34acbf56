/** The fixed configuration of the service and its extension policy. */
module Policy {
  import opened Text

  /** The storage root every handler joins its paths onto. */
  const UploadFolder: string := "/app/files"

  /** The base of the download URLs the upload handler returns. */
  const UrlPrefix: string := "http://localhost:5000/files/"

  /** The twelve extensions an uploaded file may carry, in lower case. */
  const AllowedExtensions: set<string> :=
    {"txt", "pdf", "png", "jpg", "jpeg", "gif", "doc", "docx", "xls", "xlsx", "zip", "rar"}

  /** `i` is the position of the last dot of `f`. */
  predicate LastDotAt(f: string, i: int) {
    0 <= i < |f| && f[i] == '.' && forall k :: i < k < |f| ==> f[k] != '.'
  }

  /** `f.rsplit('.', 1)[1]`: the text after the last dot. */
  function Extension(f: string): (r: string)
    requires '.' in f
    ensures LastDotAt(f, |f| - |r| - 1)
    ensures r == f[|f| - |r|..]
  {
    f[RFind(f, '.') + 1..]
  }

  /** The lower-cased text after the last dot holds no dot. */
  lemma LoweredExtensionHasNoDot(f: string)
    requires '.' in f
    ensures '.' !in Lower(Extension(f))
  {
    var e := Extension(f);
    LowerFacts(e);
    forall k | 0 <= k < |e|
      ensures Lower(e)[k] != '.'
    {
      assert e[k] == f[|f| - |e| + k];
    }
  }

  /** A name has at most one last dot. */
  lemma LastDotUnique(f: string, i: int, j: int)
    requires LastDotAt(f, i) && LastDotAt(f, j)
    ensures i == j
  {
  }

  /** The extension of `a.e`, for `e` without a dot, is `e`. */
  lemma ExtensionAfterDot(a: string, e: string)
    requires '.' !in e
    ensures '.' in a + "." + e && Extension(a + "." + e) == e
  {
    var n := a + "." + e;
    assert n[|a|] == '.';
    assert LastDotAt(n, |a|) by {
      forall k | |a| < k < |n|
        ensures n[k] != '.'
      {
        assert n[k] == e[k - |a| - 1];
      }
    }
    var x := Extension(n);
    LastDotUnique(n, |a|, |n| - |x| - 1);
  }

  /** `allowed_file`: the name has a dot and the lower-cased text after the
      last dot is one of the allowed extensions. */
  predicate AllowedFile(f: string)
    ensures AllowedFile(f) ==> '.' in f && 3 <= |Extension(f)| <= 4
  {
    '.' in f && Lower(Extension(f)) in AllowedExtensions
  }

  /** The extension check, stated without `rsplit`: some dot is the last
      dot and the lower-cased text after it is allowed. */
  lemma AllowedFileIff(f: string)
    ensures AllowedFile(f) <==> exists i :: LastDotAt(f, i) && Lower(f[i + 1..]) in AllowedExtensions
  {
    if '.' in f {
      var e := Extension(f);
      var j := |f| - |e| - 1;
      assert f[j + 1..] == e;
      forall i | LastDotAt(f, i)
        ensures i == j
      {
        LastDotUnique(f, i, j);
      }
    }
  }


  /** A name without a dot, or whose last character is the dot, is refused. */
  lemma AllowedFileNeedsExtension(f: string)
    ensures '.' !in f ==> !AllowedFile(f)
    ensures |f| > 0 && f[|f| - 1] == '.' ==> !AllowedFile(f)
  {
    if |f| > 0 && f[|f| - 1] == '.' {
      assert Extension(f) == "";
    }
  }

  /** The case of the name does not matter: two names equal after lowering
      are accepted or refused together. */
  lemma {:induction false} AllowedFileIgnoresCase(f: string, g: string)
    requires Lower(f) == Lower(g)
    ensures AllowedFile(f) == AllowedFile(g)
  {
    LowerFacts(f);
    LowerFacts(g);
    assert |f| == |g|;
    if AllowedFile(f) {
      TransferExtension(f, g);
    }
    if AllowedFile(g) {
      TransferExtension(g, f);
    }
  }

  lemma TransferExtension(f: string, g: string)
    requires Lower(f) == Lower(g)
    requires AllowedFile(f)
    ensures AllowedFile(g)
  {
    SameLoweredExtension(f, g);
  }

  /** Names equal after lowering have their last dot at the same place,
      and the same lowered extension. */
  lemma SameLoweredExtension(f: string, g: string)
    requires Lower(f) == Lower(g) && '.' in f
    ensures '.' in g && Lower(Extension(g)) == Lower(Extension(f))
  {
    var e := Extension(f);
    var i := |f| - |e| - 1;
    assert LowerChar(g[i]) == Lower(f)[i] == '.';
    assert LastDotAt(g, i) by {
      forall k | i < k < |g|
        ensures g[k] != '.'
      {
        assert LowerChar(g[k]) == Lower(f)[k] == LowerChar(f[k]);
      }
    }
    var x := Extension(g);
    LastDotUnique(g, i, |g| - |x| - 1);
    LowerSlice(f, i + 1);
    LowerSlice(g, i + 1);
    assert Lower(x) == Lower(g)[i + 1..] == Lower(f)[i + 1..] == Lower(e);
  }



}
