/**
 * The file-name policy of the upload demo: which names may be uploaded
 * (`allowed_file`), how a stored name is made (`random_filename`, built on
 * POSIX `os.path.splitext`), and the all-or-nothing selection that
 * `multi_upload` performs over a list of uploaded names.
 */
module UploadPolicy {
  import opened Strings
  import Forms

  /** `app.config['ALLOWED_EXTENSIONS']` */
  const AllowedExtensions: seq<string> := ["png", "jpg", "jpeg", "gif"]

  /** `filename.rsplit('.', 1)[1]`: the text after the last dot. */
  function ExtensionAfterLastDot(filename: string): (ext: string)
    requires '.' in filename
    ensures '.' !in ext
    ensures |ext| < |filename| && filename == filename[..|filename| - |ext| - 1] + "." + ext
  {
    var d := RFind(filename, '.');
    assert filename == filename[..d] + "." + filename[d + 1..];
    filename[d + 1..]
  }

  /** `allowed_file`: the name has a dot and the lower-cased text after its last dot is allowed. */
  predicate AllowedFile(filename: string) {
    '.' in filename && Lower(ExtensionAfterLastDot(filename)) in AllowedExtensions
  }

  /**
   * An allowed name ends in a dot and three or four characters, none of them a
   * dot or a slash, so it is at least four characters long.
   */
  lemma AllowedFileShape(filename: string)
    requires AllowedFile(filename)
    ensures var ext := ExtensionAfterLastDot(filename);
            && 3 <= |ext| <= 4 && '/' !in ext && '.' !in ext
            && |filename| >= 4 && filename[|filename| - |ext| - 1] == '.'
  {
    AllowedExtensionShape(ExtensionAfterLastDot(filename));
  }

  /** An extension that is allowed once lower-cased holds no dot and no slash. */
  lemma AllowedExtensionShape(ext: string)
    requires Lower(ext) in AllowedExtensions
    ensures '.' !in ext && '/' !in ext && 3 <= |ext| <= 4
  {
    var x := Lower(ext);
    assert '.' !in x && '/' !in x;
    forall j | 0 <= j < |ext| ensures ext[j] != '.' && ext[j] != '/' {
      assert x[j] == LowerChar(ext[j]);
    }
  }

  /** Deciding a name from its last dot: `stem.ext` is allowed exactly when `ext` lower-cased is. */
  lemma AllowedFileOfParts(stem: string, ext: string)
    requires '.' !in ext
    ensures AllowedFile(stem + "." + ext) <==> Lower(ext) in AllowedExtensions
  {
    var f := stem + "." + ext;
    RFindAt(stem, ext, '.');
    assert f[|stem| + 1..] == ext;
  }

  /**
   * The reference reading of `allowed_file`: some dot in the name is followed by a
   * dot-free extension that is allowed once lower-cased.
   */
  lemma AllowedFileIffSuffix(filename: string)
    ensures AllowedFile(filename) <==>
              exists i :: 0 <= i < |filename| && filename[i] == '.' && '.' !in filename[i + 1..]
                          && Lower(filename[i + 1..]) in AllowedExtensions
  {
    if i :| 0 <= i < |filename| && filename[i] == '.' && '.' !in filename[i + 1..]
                && Lower(filename[i + 1..]) in AllowedExtensions {
      assert filename == filename[..i] + "." + filename[i + 1..];
      AllowedFileOfParts(filename[..i], filename[i + 1..]);
    }
    if AllowedFile(filename) {
      var d := RFind(filename, '.');
      assert filename[d] == '.' && '.' !in filename[d + 1..];
    }
  }

  /** A name ending in a dot has an empty extension and is refused. */
  lemma TrailingDotRefused(stem: string)
    ensures !AllowedFile(stem + ".")
  {
    AllowedFileOfParts(stem, "");
    assert stem + "." + "" == stem + ".";
  }

  /** Upper and lower case in the extension are decided alike. */
  lemma AllowedFileIgnoresCase(stem: string, ext: string, ext': string)
    requires '.' !in ext && '.' !in ext' && Lower(ext) == Lower(ext')
    ensures AllowedFile(stem + "." + ext) <==> AllowedFile(stem + "." + ext')
  {
    AllowedFileOfParts(stem, ext);
    AllowedFileOfParts(stem, ext');
  }

  lemma SameMembers(x: string)
    ensures x in Forms.UploadFormExtensions <==> x in AllowedExtensions
  {
  }

  /** The lower-cased name ends with a dot and the lower-cased text after its last dot. */
  lemma LowerEndsWithExtension(filename: string)
    requires '.' in filename
    ensures EndsWith(Lower(filename), "." + Lower(ExtensionAfterLastDot(filename)))
  {
    var ext := ExtensionAfterLastDot(filename);
    var stem := filename[..|filename| - |ext| - 1];
    assert Lower(filename) == Lower(stem) + ("." + Lower(ext)) by {
      assert filename == stem + ("." + ext);
      LowerAppend(stem, "." + ext);
      LowerAppend(".", ext);
      assert Lower(".") == ".";
    }
    EndsWithAppend(Lower(stem), "." + Lower(ext));
  }

  /** The character before a lower-cased suffix "." + x is itself a dot. */
  lemma DotBeforeSuffix(filename: string, x: string)
    requires EndsWith(Lower(filename), "." + x)
    ensures filename[|filename| - |x| - 1] == '.'
  {
    var n, m := |filename|, |x|;
    assert Lower(filename)[n - m - 1..] == "." + x;
    assert Lower(filename)[n - m - 1] == ("." + x)[0];
  }

  /** The last |x| characters of the name lower-case to x. */
  lemma LowerOfSuffix(filename: string, x: string)
    requires EndsWith(Lower(filename), "." + x)
    ensures Lower(filename[|filename| - |x|..]) == x
  {
    var n, m := |filename|, |x|;
    var ext, lf := filename[n - m..], Lower(filename);
    assert lf[n - m - 1..] == "." + x;
    forall j | 0 <= j < m ensures Lower(ext)[j] == x[j] {
      assert Lower(ext)[j] == LowerChar(filename[n - m + j]) == lf[n - m + j];
      assert lf[n - m + j] == lf[n - m - 1..][j + 1] == ("." + x)[j + 1];
    }
  }

  /** A name whose lower-cased form ends in "." + x, x free of dots, has x as its lower-cased extension. */
  lemma EndsWithDotFreeSuffix(filename: string, x: string)
    requires '.' !in x && EndsWith(Lower(filename), "." + x)
    ensures '.' in filename && Lower(ExtensionAfterLastDot(filename)) == x
  {
    var n, m := |filename|, |x|;
    var stem, ext := filename[..n - m - 1], filename[n - m..];
    DotBeforeSuffix(filename, x);
    LowerOfSuffix(filename, x);
    assert filename == stem + "." + ext;
    assert '.' !in ext by {
      forall j | 0 <= j < m ensures ext[j] != '.' {
        assert Lower(ext)[j] == LowerChar(ext[j]);
      }
    }
    RFindAt(stem, ext, '.');
  }

  /** A name whose lower-cased form ends in "." + x, x allowed, is allowed. */
  lemma EndsWithAllowedExtension(filename: string, x: string)
    requires x in AllowedExtensions && EndsWith(Lower(filename), "." + x)
    ensures AllowedFile(filename)
  {
    assert '.' !in x;
    EndsWithDotFreeSuffix(filename, x);
  }

  /** flask_wtf's FileAllowed with UploadForm's list accepts exactly the names `allowed_file` accepts. */
  lemma FileAllowedMatchesAllowedFile(filename: string)
    ensures Forms.FileAllowed(filename, Forms.UploadFormExtensions) <==> AllowedFile(filename)
  {
    if AllowedFile(filename) {
      var x := Lower(ExtensionAfterLastDot(filename));
      SameMembers(x);
      LowerEndsWithExtension(filename);
      assert x in Forms.UploadFormExtensions && EndsWith(Lower(filename), "." + x);
    }
    if Forms.FileAllowed(filename, Forms.UploadFormExtensions) {
      var x :| x in Forms.UploadFormExtensions && EndsWith(Lower(filename), "." + x);
      SameMembers(x);
      EndsWithAllowedExtension(filename, x);
    }
  }

  /** UploadForm's FileAllowed list and the application's ALLOWED_EXTENSIONS hold the same four extensions. */
  lemma SameExtensionLists()
    ensures multiset(Forms.UploadFormExtensions) == multiset(AllowedExtensions)
  {
    calc {
      multiset(Forms.UploadFormExtensions);
      multiset{"jpg", "jpeg", "png", "gif"};
      multiset(AllowedExtensions);
    }
  }

  // ---------------------------------------------------------------------------
  // os.path.splitext and random_filename

  predicate AllDots(s: string) {
    forall i :: 0 <= i < |s| ==> s[i] == '.'
  }

  /** The part of a path component before its last dot holds something other than dots. */
  predicate HasStem(p: string, start: int, dot: int)
    requires 0 <= start <= dot <= |p|
  {
    !AllDots(p[start..dot])
  }

  /** The last path component of `p`: what follows its last '/'. */
  function LastComponent(p: string): (r: string)
    ensures '/' !in r && EndsWith(p, r)
  {
    p[RFind(p, '/') + 1..]
  }

  /**
   * `os.path.splitext(p)` on POSIX: the extension runs from the last dot of the
   * last path component, provided something other than dots comes before that
   * dot in the component; otherwise there is no extension.
   */
  function SplitExt(p: string): (parts: (string, string))
    ensures parts.0 + parts.1 == p
    ensures |parts.1| > 0 ==> parts.1[0] == '.' && '.' !in parts.1[1..] && '/' !in parts.1
  {
    var sep := RFind(p, '/');
    var dot := RFind(p, '.');
    if dot > sep && HasStem(p, sep + 1, dot) then
      DottedSuffix(p, sep, dot);
      (p[..dot], p[dot..])
    else (p, "")
  }

  /** The text from the last dot on, when that dot follows the last slash, is a dot and a plain extension. */
  lemma DottedSuffix(p: string, sep: int, dot: int)
    requires -1 <= sep < dot < |p| && p[dot] == '.' && '.' !in p[dot + 1..] && '/' !in p[sep + 1..]
    ensures p[..dot] + p[dot..] == p
    ensures p[dot..][0] == '.' && '.' !in p[dot..][1..] && '/' !in p[dot..]
  {
    SuffixLacks(p, sep + 1, dot, '/');
    assert p[dot..][1..] == p[dot + 1..];
  }

  /** How splitext cuts `stem.ext`: at that dot, unless the stem's last component is only dots. */
  lemma SplitExtOfParts(stem: string, ext: string)
    requires '.' !in ext && '/' !in ext
    ensures SplitExt(stem + "." + ext) ==
              if AllDots(LastComponent(stem)) then (stem + "." + ext, "") else (stem, "." + ext)
  {
    var p := stem + "." + ext;
    RFindAt(stem, ext, '.');
    assert p == stem + ("." + ext);
    RFindSkipsSuffix(stem, "." + ext, '/');
    var sep := RFind(stem, '/');
    assert p[sep + 1..|stem|] == LastComponent(stem);
    assert p[..|stem|] == stem && p[|stem|..] == "." + ext;
  }

  /** A uuid4().hex token: 32 lower-case hexadecimal digits. */
  predicate IsHexToken(token: string) {
    |token| == 32 && forall i :: 0 <= i < |token| ==> '0' <= token[i] <= '9' || 'a' <= token[i] <= 'f'
  }

  /**
   * `random_filename`: the token followed by the original extension exactly as
   * splitext returns it (its dot and its case kept), so the new name is the
   * token plus a suffix of the uploaded name that is empty or one dotted extension.
   */
  function RandomFilename(token: string, filename: string): (name: string)
    ensures |token| <= |name| && name[..|token|] == token
    ensures EndsWith(filename, name[|token|..])
    ensures name == token || (name[|token|] == '.' && '.' !in name[|token| + 1..] && '/' !in name[|token|..])
  {
    var ext := SplitExt(filename).1;
    assert (token + ext)[|token|..] == ext;
    token + ext
  }

  /** A generated name is a single path component that does not start with a dot. */
  lemma RandomFilenameIsFlat(token: string, filename: string)
    requires IsHexToken(token)
    ensures var name := RandomFilename(token, filename);
            '/' !in name && name[0] != '.' && |name| >= 32
  {
    var name := RandomFilename(token, filename);
    assert name[..32] == token;
    assert forall i :: 0 <= i < 32 ==> name[i] == token[i];
    assert name == name[..32] + name[32..];
  }

  /** The stored name of `stem.ext`: the token plus ".ext", or the bare token when the stem's last component is only dots. */
  lemma RandomFilenameOfParts(token: string, stem: string, ext: string)
    requires '.' !in ext && '/' !in ext
    ensures RandomFilename(token, stem + "." + ext) ==
              if AllDots(LastComponent(stem)) then token else token + "." + ext
  {
    var p := stem + "." + ext;
    if AllDots(LastComponent(stem)) {
      assert SplitExt(p).1 == "" by {
        SplitExtOfParts(stem, ext);
      }
      assert token + "" == token;
    } else {
      assert SplitExt(p).1 == "." + ext by {
        SplitExtOfParts(stem, ext);
      }
      assert token + ("." + ext) == token + "." + ext;
    }
  }

  /**
   * For an allowed upload `stem.ext` the stored name is the token plus ".ext" in its
   * original case, except when the stem's last component is only dots (".png"),
   * where splitext sees no extension and the stored name is the bare token.
   */
  lemma AllowedNameKeepsExtension(token: string, stem: string, ext: string)
    requires '.' !in ext && Lower(ext) in AllowedExtensions
    ensures AllowedFile(stem + "." + ext)
    ensures RandomFilename(token, stem + "." + ext) ==
              if AllDots(LastComponent(stem)) then token else token + "." + ext
  {
    AllowedFileOfParts(stem, ext);
    AllowedExtensionShape(ext);
    RandomFilenameOfParts(token, stem, ext);
  }

  /**
   * A name whose stem ends in a component made only of dots (".png", "..png",
   * "photos/.png") passes `allowed_file`, yet splitext sees no extension in it,
   * so its stored name is the bare token.
   */
  lemma DotfileLosesExtension(token: string, stem: string, ext: string)
    requires '.' !in ext && Lower(ext) in AllowedExtensions
    requires AllDots(LastComponent(stem))
    ensures AllowedFile(stem + "." + ext) && RandomFilename(token, stem + "." + ext) == token
  {
    AllowedNameKeepsExtension(token, stem, ext);
  }

  // ---------------------------------------------------------------------------
  // The selection multi_upload makes over a list of uploads

  /** Index of the first upload `allowed_file` refuses, or the list's length when none is refused. */
  function FirstDisallowed(names: seq<string>): (k: nat)
    ensures k <= |names|
    ensures forall i :: 0 <= i < k ==> AllowedFile(names[i])
    ensures k < |names| ==> !AllowedFile(names[k])
  {
    if names == [] then 0
    else if !AllowedFile(names[0]) then 0
    else
      var k := FirstDisallowed(names[1..]);
      assert 1 + k < |names| ==> names[1 + k] == names[1..][k];
      assert forall i :: 1 <= i < 1 + k ==> AllowedFile(names[i]) by {
        forall i | 1 <= i < 1 + k ensures AllowedFile(names[i]) {
          assert names[i] == names[1..][i - 1];
        }
      }
      1 + k
  }

  /** The names `random_filename` gives the uploads, one token each, in upload order. */
  function NewNames(tokens: seq<string>, names: seq<string>): (r: seq<string>)
    requires |tokens| >= |names|
    ensures |r| == |names|
    ensures forall i :: 0 <= i < |names| ==> r[i] == RandomFilename(tokens[i], names[i])
  {
    seq(|names|, i requires 0 <= i < |names| => RandomFilename(tokens[i], names[i]))
  }

  /** Taking one more upload appends that upload's new name. */
  lemma NewNamesExtend(tokens: seq<string>, names: seq<string>, i: nat)
    requires i < |names| <= |tokens|
    ensures NewNames(tokens, names[..i + 1]) == NewNames(tokens, names[..i]) + [RandomFilename(tokens[i], names[i])]
  {
    var l, r := NewNames(tokens, names[..i + 1]), NewNames(tokens, names[..i]) + [RandomFilename(tokens[i], names[i])];
    assert forall j :: 0 <= j < i + 1 ==> l[j] == r[j];
  }

  /** Distinct tokens of one length give distinct stored names, so no upload overwrites another. */
  lemma NewNamesDistinct(tokens: seq<string>, names: seq<string>)
    requires |tokens| >= |names|
    requires forall i :: 0 <= i < |tokens| ==> IsHexToken(tokens[i])
    requires forall i, j :: 0 <= i < j < |tokens| ==> tokens[i] != tokens[j]
    ensures forall i, j :: 0 <= i < j < |names| ==> NewNames(tokens, names)[i] != NewNames(tokens, names)[j]
  {
    var r := NewNames(tokens, names);
    forall i, j | 0 <= i < j < |names| ensures r[i] != r[j] {
      assert r[i][..32] == tokens[i] && r[j][..32] == tokens[j];
    }
  }
}
