/** `pathlib.PurePath.suffix` and `with_suffix`, on the final component of
    a path (its `name`), as CPython defines them. */
module PyPath {
  import opened PyStr

  /** A final path component as `rglob` yields it: never empty. */
  type FileName = s: string | s != "" witness "_"

  /** `name.rfind('.')`: the index of the last dot, or -1. */
  function LastDot(name: string): (i: int)
    ensures -1 <= i < |name|
    ensures i >= 0 ==> name[i] == '.'
    ensures forall k :: i < k < |name| ==> name[k] != '.'
  {
    if name == [] then -1
    else if name[|name| - 1] == '.' then |name| - 1
    else LastDot(name[..|name| - 1])
  }

  /** `PurePath(name).suffix`: from the last dot on, unless that dot is the
      first or the last character (a dotfile such as `.jpg`, or `a.`), in
      which case there is no suffix. A non-empty suffix is a dot followed by
      at least one character and no further dot, and something precedes it. */
  function Suffix(name: string): (suf: string)
    ensures suf != "" ==> && 2 <= |suf| < |name| && EndsWith(name, suf)
                          && suf[0] == '.'
                          && forall k :: 0 < k < |suf| ==> suf[k] != '.'
  {
    var i := LastDot(name);
    if 0 < i < |name| - 1 then name[i..] else ""
  }

  /** A name has a suffix exactly when it does not end with a dot and has a
      dot somewhere after its first character. */
  lemma SuffixPresentIff(name: string)
    ensures Suffix(name) != "" <==> && |name| >= 2 && name[|name| - 1] != '.'
                                    && exists k :: 1 <= k < |name| && name[k] == '.'
  {
    if exists k :: 1 <= k < |name| && name[k] == '.' {
      var k :| 1 <= k < |name| && name[k] == '.';
      assert LastDot(name) >= k;
    }
  }

  /** `PurePath(name).stem`: the name without its suffix, so that the name
      is its stem followed by its suffix; a non-empty name has a non-empty
      stem. */
  function Stem(name: string): (stem: string)
    ensures name == stem + Suffix(name)
    ensures name != "" ==> stem != ""
  {
    name[..|name| - |Suffix(name)|]
  }

  /** The extension the converter gives every file it writes, and the one
      `generate_metadata` deletes again. */
  const TxtSuffix: string := ".txt"

  /** A suffix that `with_suffix` accepts without a ValueError and that
      `suffix` can give back: a dot, then at least one character, no other
      dot and no separator. */
  predicate ValidSuffix(suffix: string) {
    && |suffix| >= 2 && suffix[0] == '.'
    && forall k :: 0 < k < |suffix| ==> suffix[k] != '.' && suffix[k] != '/'
  }

  /** `PurePath(name).with_suffix(suffix)`: the old suffix replaced, or the
      new one appended when there is none; either way the result ends with
      the new suffix. */
  function WithSuffix(name: FileName, suffix: string): (r: FileName)
    requires ValidSuffix(suffix)
    ensures EndsWith(r, suffix)
  {
    var oldSuffix := Suffix(name);
    if oldSuffix == "" then name + suffix
    else name[..|name| - |oldSuffix|] + suffix
  }

  /** The last dot of `stem + suffix` is the one that starts `suffix`. */
  lemma {:induction false} LastDotOfAppend(stem: string, suffix: string)
    requires ValidSuffix(suffix)
    ensures LastDot(stem + suffix) == |stem|
  {
    var s := stem + suffix;
    assert s[|stem|] == '.';
    assert forall k :: |stem| < k < |s| ==> s[k] == suffix[k - |stem|];
  }

  /** Replacing the suffix and reading it back gives the new suffix, and the
      stem is kept: `with_suffix` and `suffix`/`stem` are inverse. */
  lemma WithSuffixRoundTrip(name: FileName, suffix: string)
    requires ValidSuffix(suffix)
    ensures Suffix(WithSuffix(name, suffix)) == suffix
    ensures Stem(WithSuffix(name, suffix)) == Stem(name)
  {
    var stem := Stem(name);
    assert WithSuffix(name, suffix) == stem + suffix;
    LastDotOfAppend(stem, suffix);
    assert (stem + suffix)[|stem|..] == suffix;
  }

  /** Replacing the suffix a second time with the same one changes nothing. */
  lemma WithSuffixIdempotent(name: FileName, suffix: string)
    requires ValidSuffix(suffix)
    ensures WithSuffix(WithSuffix(name, suffix), suffix) == WithSuffix(name, suffix)
  {
    WithSuffixRoundTrip(name, suffix);
  }

  /** The suffix test the converter applies: `suffix.lower() == ".jpg"`. A
      name passes it exactly when it is longer than four characters and its
      last four are a dot and `j`, `p`, `g` in either case; a bare `.jpg` is
      a dotfile and does not pass. */
  predicate IsJpg(name: string) {
    Lower(Suffix(name)) == ".jpg"
  }

  /** The character-level shape of the names `IsJpg` accepts. */
  lemma IsJpgShape(name: string)
    ensures IsJpg(name) <==>
              && |name| >= 5 && name[|name| - 4] == '.'
              && LowerChar(name[|name| - 3]) == 'j'
              && LowerChar(name[|name| - 2]) == 'p'
              && LowerChar(name[|name| - 1]) == 'g'
  {
    var n := |name|;
    var suf := Suffix(name);
    if Lower(suf) == ".jpg" {
      assert Lower(suf)[0] == '.' && Lower(suf)[1] == 'j';
      assert suf == name[n - 4..];
      assert name[n - 4..][0] == name[n - 4];
    }
    if n >= 5 && name[n - 4] == '.' && LowerChar(name[n - 3]) == 'j'
        && LowerChar(name[n - 2]) == 'p' && LowerChar(name[n - 1]) == 'g' {
      assert name[n - 3] != '.' && name[n - 2] != '.' && name[n - 1] != '.';
      assert LastDot(name) == n - 4;
      assert suf == name[n - 4..];
      var l := Lower(suf);
      assert |l| == 4 && l[0] == '.';
      assert l[1] == LowerChar(name[n - 3]) && l[2] == LowerChar(name[n - 2]) && l[3] == LowerChar(name[n - 1]);
      assert l == ".jpg";
    }
  }
}
