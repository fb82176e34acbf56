/**
 * Properties of the names the upload handler stores files under: the
 * custom-name rule, and the one-shot collision rename.
 */
module NamingProps {
  import opened Text
  import opened Policy
  import opened PosixPath
  import opened Handlers

  /** A rendering of `%Y%m%d_%H%M%S`: eight digits, an underscore, six
      digits. */
  predicate IsTimestamp(ts: string) {
    && |ts| == 15
    && ts[8] == '_'
    && forall k :: 0 <= k < 15 && k != 8 ==> '0' <= ts[k] <= '9'
  }

  /** None of the allowed extensions holds a slash or an underscore. */
  lemma AllowedExtensionChars(e: string)
    requires e in AllowedExtensions
    ensures '/' !in e && '_' !in e && '.' !in e
  {
  }

  /** With a custom name the stored name ends in a dot and the lower-cased
      extension of the original, whatever `secure` makes of the custom
      name: it passes the extension check whenever the original did. */
  lemma CustomNameKeepsExtension(original: string, custom: string, secure: string -> string)
    requires AllowedFile(original) && custom != ""
    ensures var n := StoredName(original, custom, secure);
            && '.' in n
            && Extension(n) == Lower(Extension(original))
            && AllowedFile(n)
  {
    var e := Lower(Extension(original));
    AllowedExtensionChars(e);
    ExtensionAfterDot(secure(custom), e);
    LowerFacts(Extension(original));
  }

  /** The worked example: custom name `report` on `x.PDF` is stored as
      `report.pdf`. */
  lemma CustomNameExample(secure: string -> string)
    requires secure("report") == "report"
    ensures StoredName("x.PDF", "report", secure) == "report.pdf"
  {
    assert LastDotAt("x.PDF", 1);
    var x := Extension("x.PDF");
    LastDotUnique("x.PDF", 1, 5 - |x| - 1);
    assert x == "PDF";
    assert Lower("PDF") == "pdf";
  }

  /** The underscore and a timestamp hold neither a dot nor a slash. */
  lemma StampChars(ts: string)
    requires IsTimestamp(ts)
    ensures RFind("_" + ts, '.') == -1 && RFind("_" + ts, '/') == -1
  {
    var stamp := "_" + ts;
    forall k | 0 <= k < |stamp|
      ensures stamp[k] != '.' && stamp[k] != '/'
    {
      if k > 0 {
        assert stamp[k] == ts[k - 1];
      }
    }
  }

  /** The collision rename lengthens the name by the underscore and the
      timestamp, changes it, and keeps what `splitext` sees: the new name
      splits into the old base with the stamp appended, and the same
      extension. */
  lemma CollisionNameShape(name: string, ts: string)
    requires IsTimestamp(ts)
    ensures var c := CollisionName(name, ts);
            && |c| == |name| + 16
            && c != name
            && SplitExt(c) == (SplitExt(name).0 + "_" + ts, SplitExt(name).1)
  {
    StampChars(ts);
    var b, e := SplitExt(name).0, SplitExt(name).1;
    assert CollisionName(name, ts) == b + ("_" + ts) + e;
    if e == "" {
      assert b == name;
      assert CollisionName(name, ts) == name + ("_" + ts) == name + "_" + ts;
      CollisionWithoutExtension(name, "_" + ts);
    } else {
      CollisionWithExtension(name, "_" + ts);
    }
  }

  lemma CollisionWithoutExtension(name: string, stamp: string)
    requires RFind(stamp, '.') == -1 && RFind(stamp, '/') == -1
    requires SplitExt(name).1 == ""
    ensures SplitExt(name + stamp) == (name + stamp, "")
  {
    var c := name + stamp;
    RFindAppend(name, stamp, '.');
    RFindAppend(name, stamp, '/');
    var sep := RFind(name, '/');
    var dot := RFind(name, '.');
    assert RFind(c, '/') == sep && RFind(c, '.') == dot;
  }

  lemma CollisionWithExtension(name: string, stamp: string)
    requires RFind(stamp, '.') == -1 && RFind(stamp, '/') == -1
    requires SplitExt(name).1 != "" && |stamp| > 0 && stamp[0] != '.'
    ensures SplitExt(SplitExt(name).0 + stamp + SplitExt(name).1)
            == (SplitExt(name).0 + stamp, SplitExt(name).1)
  {
    var (b, e) := SplitExt(name);
    ExtensionParts(name);
    var b' := b + stamp;
    var c := b' + e;
    RFindAppend(b, stamp, '/');
    RFindAppend(b', e, '.');
    RFindAppend(b', e, '/');
    assert c[|b|] == stamp[0];
    assert c[..|b'|] == b' && c[|b'|..] == e;
  }

  /** Where `splitext` finds an extension, the extension starts with the
      last dot and holds no slash, and the last slash lies before it. */
  lemma ExtensionParts(name: string)
    requires SplitExt(name).1 != ""
    ensures var (b, e) := SplitExt(name);
            && RFind(e, '.') == 0 && RFind(e, '/') == -1
            && RFind(b, '/') < |b|
  {
    var (b, e) := SplitExt(name);
    assert RFind(e, '.') == 0 by {
      assert e == [e[0]] + e[1..];
      RFindAppend([e[0]], e[1..], '.');
    }
    assert RFind(e, '/') == -1;
  }

  /** The rename does not look inside a name `splitext` gives no
      extension: a stored name that is only a dot and an extension (what a
      custom name that sanitises to nothing leaves) gets the stamp after the
      extension, and the renamed file no longer passes the extension
      check. */
  lemma CollisionHidesExtension(ext: string, ts: string)
    requires IsTimestamp(ts) && ext in AllowedExtensions
    ensures CollisionName("." + ext, ts) == "." + ext + "_" + ts
    ensures !AllowedFile(CollisionName("." + ext, ts))
  {
    AllowedExtensionChars(ext);
    var n := "." + ext;
    assert RFind(n, '/') == -1;
    assert RFind(n, '.') == 0 by {
      RFindAppend(".", ext, '.');
    }
    assert SplitExt(n) == (n, "");
    var c := n + "_" + ts;
    assert c[0] == '.';
    var x := Extension(c);
    var i := |c| - |x| - 1;
    assert LastDotAt(c, 0) by {
      forall k | 0 < k < |c|
        ensures c[k] != '.'
      {
        if k <= |ext| {
          assert c[k] == ext[k - 1];
        } else if k > |ext| + 1 {
          assert c[k] == ts[k - |ext| - 2];
        }
      }
    }
    LastDotUnique(c, 0, i);
    assert Lower(x)[|ext|] == '_';
    assert |Lower(x)| == |ext| + 16;
  }

  /** Where `splitext` finds an extension, the rename puts the stamp in
      front of it: the renamed file keeps the text after its last dot, so
      it passes the extension check exactly when the original did. */
  lemma CollisionKeepsExtension(name: string, d: int, ts: string)
    requires IsTimestamp(ts) && ExtensionAt(name, d)
    ensures CollisionName(name, ts) == name[..d] + "_" + ts + name[d..]
    ensures '.' in name && '.' in CollisionName(name, ts)
    ensures Extension(CollisionName(name, ts)) == Extension(name)
    ensures AllowedFile(CollisionName(name, ts)) <==> AllowedFile(name)
  {
    RenameAtCut(name, d, ts);
    var b, e := name[..d], name[d + 1..];
    assert name == b + "." + e;
    NoDotAfterCut(name, d);
    assert CollisionName(name, ts) == (b + "_" + ts) + "." + e;
    ExtensionAfterDot(b, e);
    ExtensionAfterDot(b + "_" + ts, e);
    SameExtensionAllowed(name, CollisionName(name, ts));
  }

  /** The extension check looks only at the text after the last dot. */
  lemma SameExtensionAllowed(f: string, g: string)
    requires '.' in f && '.' in g && Extension(f) == Extension(g)
    ensures AllowedFile(f) <==> AllowedFile(g)
  {
  }

  lemma RenameAtCut(name: string, d: int, ts: string)
    requires IsTimestamp(ts) && ExtensionAt(name, d)
    ensures CollisionName(name, ts) == name[..d] + "_" + ts + name[d..]
  {
    SplitExtCut(name);
    var c := CollisionName(name, ts);
    assert c[..d] + c[d + 16..] == name;
    assert c == c[..d] + c[d..d + 16] + c[d + 16..];
  }

  lemma NoDotAfterCut(name: string, d: int)
    requires ExtensionAt(name, d)
    ensures '.' !in name[d + 1..]
  {
    var e := name[d + 1..];
    forall k | 0 <= k < |e|
      ensures e[k] != '.'
    {
      assert e[k] == name[d + 1 + k];
    }
  }

  /** The worked example: `report.pdf` is renamed `report_<ts>.pdf`, which
      still passes the extension check. */
  lemma CollisionExample(ts: string)
    requires IsTimestamp(ts)
    ensures CollisionName("report.pdf", ts) == "report_" + ts + ".pdf"
    ensures AllowedFile(CollisionName("report.pdf", ts))
  {
    ReportCut();
    CollisionKeepsExtension("report.pdf", 6, ts);
    ReportAllowed();
  }

  lemma ReportCut()
    ensures ExtensionAt("report.pdf", 6)
    ensures "report.pdf"[..6] == "report" && "report.pdf"[6..] == ".pdf"
  {
    var n := "report.pdf";
    assert n[0] != '.';
    assert forall j :: 0 <= j < 6 ==> n[j] != '/';
  }

  lemma ReportAllowed()
    ensures AllowedFile("report.pdf")
  {
    assert "report.pdf" == "report" + "." + "pdf";
    ExtensionAfterDot("report", "pdf");
    assert Lower("pdf") == "pdf";
  }
}
