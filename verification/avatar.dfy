/** The avatar link shown beside a user's name. */
module Avatar {
  import opened Records

  const Prefix: string := "https://ui-avatars.com/api/?name="
  const Suffix: string := "&background=6d28d9&color=fff&bold=true"

  /** `s.replace(' ', '+')`: a string pattern, so only the first space is replaced. */
  function ReplaceFirstSpace(s: string): (r: string)
    ensures |r| == |s|
    ensures forall i :: 0 <= i < |s| ==> r[i] == if s[i] == ' ' && ' ' !in s[..i] then '+' else s[i]
  {
    if s == [] then []
    else if s[0] == ' ' then "+" + s[1..]
    else
      var rest := ReplaceFirstSpace(s[1..]);
      assert forall i :: 1 <= i < |s| ==> s[1..][..i - 1] == s[1..i] && s[..i] == [s[0]] + s[1..i];
      [s[0]] + rest
  }

  /** The first space becomes '+', and every later space is kept. */
  lemma {:induction false} ReplaceFirstSpaceSplit(s: string, k: nat)
    requires k < |s| && s[k] == ' ' && ' ' !in s[..k]
    ensures ReplaceFirstSpace(s) == s[..k] + "+" + s[k + 1..]
  {
    var r := ReplaceFirstSpace(s);
    forall i | 0 <= i < |s| ensures r[i] == (s[..k] + "+" + s[k + 1..])[i] {
      if i > k {
        assert s[..i][k] == ' ';
      }
    }
  }

  /** A name without spaces is left unchanged. */
  lemma {:induction false} ReplaceFirstSpaceNoSpace(s: string)
    requires ' ' !in s
    ensures ReplaceFirstSpace(s) == s
  {
    var r := ReplaceFirstSpace(s);
    forall i | 0 <= i < |s| ensures r[i] == s[i] {
      assert s[i] in s;
    }
  }

  /** getAvatarUrl: empty for a missing or empty name; otherwise the fixed
      prefix, the name with its first space made '+', and the fixed suffix. */
  function GetAvatarUrl(name: Option<string>): (url: string)
    ensures name.None? || name.value == "" <==> url == ""
    ensures name.Some? && name.value != "" ==>
              && |url| == |Prefix| + |name.value| + |Suffix|
              && url[..|Prefix|] == Prefix
              && url[|url| - |Suffix|..] == Suffix
              && url[|Prefix|..|url| - |Suffix|] == ReplaceFirstSpace(name.value)
  {
    if name.None? || name.value == "" then ""
    else
      var url := Prefix + ReplaceFirstSpace(name.value) + Suffix;
      assert url[..|Prefix|] == Prefix;
      assert url[|url| - |Suffix|..] == Suffix;
      url
  }

  /** A non-empty name without spaces is embedded verbatim. */
  lemma AvatarUrlOfPlainName(name: string)
    requires name != "" && ' ' !in name
    ensures GetAvatarUrl(Some(name)) == Prefix + name + Suffix
  {
    ReplaceFirstSpaceNoSpace(name);
  }
}
