/** The parameters of a Gerrit data source written as one text
    (`GerritOcean.get_p2o_params_from_url`): the URL, then, after the first
    space, an optional `name=value` filter. */
module GerritRaw {
  import opened Values
  import Text

  /** `{'url': ..., 'filter-raw': ...}`, the filter being optional. */
  datatype P2oParams = P2oParams(url: string, filterRaw: Option<string>)

  /** The URL is the text before the first space; the filter is the text
      between the first and the second "=" of what follows it. A space not
      followed by any "=" raises IndexError. */
  function GetP2oParams(url: string): (r: Result<P2oParams>)
    ensures r.Failure? <==> ' ' in url && '=' !in Text.SplitOnce(url, ' ')[1]
    ensures r.Success? ==> ' ' !in r.value.url && (r.value.filterRaw.Some? <==> ' ' in url)
    ensures r.Success? ==> '=' !in r.value.filterRaw.GetOr("")
    ensures r.Success? && ' ' !in url ==> r.value.url == url
    // with a space, the URL is the text before the first one
    ensures r.Success? && ' ' in url ==>
      |r.value.url| < |url| && url[..|r.value.url|] == r.value.url && url[|r.value.url|] == ' '
    // and the filter the text after the first "=" that follows it, up to the next "=" or the end
    ensures r.Success? && ' ' in url ==> FilterIn(url[|r.value.url| + 1..], r.value.filterRaw.value)
  {
    var tokens := Text.SplitOnce(url, ' ');
    if |tokens| > 1 then
      CutAtSpace(url);
      var f :- FilterValue(tokens[1]);
      Success(P2oParams(tokens[0], Some(f)))
    else Success(P2oParams(tokens[0], None))
  }

  /** `f` is the text of `rest` after its first "=", up to the next "=" or the end. */
  predicate FilterIn(rest: string, f: string) {
    && '=' in rest
    && var i := Text.FirstIndex(rest, '=');
       i + 1 + |f| <= |rest| && rest[i + 1..i + 1 + |f|] == f && (i + 1 + |f| < |rest| ==> rest[i + 1 + |f|] == '=')
  }

  /** `rest.split("=")[1]`: the text after the first "=", up to the next one
      or the end; IndexError when there is no "=". */
  function FilterValue(rest: string): (r: Result<string>)
    ensures r.Failure? <==> '=' !in rest
    ensures r.Failure? ==> r.error.IndexError?
    ensures r.Success? ==> '=' !in r.value
    ensures r.Success? ==> FilterIn(rest, r.value)
  {
    var pieces := Text.Split(rest, '=');
    Text.SplitCount(rest, '=');
    if |pieces| < 2 then Failure(IndexError("list index out of range"))
    else
      Text.SecondPiece(rest, '=');
      Success(pieces[1])
  }

  /** The two parts of a text cut at its first space, by position. */
  lemma CutAtSpace(url: string)
    requires ' ' in url
    ensures var t := Text.SplitOnce(url, ' ');
            |t[0]| < |url| && url[..|t[0]|] == t[0] && url[|t[0]|] == ' ' && url[|t[0]| + 1..] == t[1]
  {
    var t := Text.SplitOnce(url, ' ');
    assert url == t[0] + [' '] + t[1];
  }

  /** A URL and a filter written as `url name=value` are read back. */
  lemma ParamsRoundTrip(u: string, name: string, value: string)
    requires ' ' !in u && '=' !in name && '=' !in value
    ensures GetP2oParams(u + " " + name + "=" + value) == Success(P2oParams(u, Some(value)))
  {
    var text := u + " " + name + "=" + value;
    var rest := name + "=" + value;
    assert text == u + [' '] + rest;
    assert text[|u|] == ' ';
    assert Text.SplitOnce(text, ' ') == [u, rest] by {
      var t := Text.SplitOnce(text, ' ');
      assert |t| == 2;
      assert text[..|t[0]|] == t[0] && ' ' !in t[0];
      SplitAtFirst(text, u, rest, t[0], t[1]);
    }
    assert rest == Text.Join([name, value], "=");
    Text.JoinSplit([name, value], '=');
  }

  /** Two ways of cutting a text at a space whose left parts hold no space
      are the same cut. */
  lemma SplitAtFirst(text: string, a: string, b: string, c: string, d: string)
    requires text == a + [' '] + b && text == c + [' '] + d
    requires ' ' !in a && ' ' !in c
    ensures a == c && b == d
  {
    assert forall j :: 0 <= j < |a| ==> text[j] == a[j];
    assert forall j :: 0 <= j < |c| ==> text[j] == c[j];
    assert text[|a|] == ' ' && text[|c|] == ' ';
    assert |a| == |c|;
    assert a == text[..|a|] == c;
    assert b == text[|a| + 1..] == d;
  }

  /** A filter value holding "=" is cut at it: only the text up to the next
      "=" is kept. */
  lemma FilterCutAtSecondEquals(u: string, name: string, v1: string, v2: string)
    requires ' ' !in u && '=' !in name && '=' !in v1 && '=' !in v2
    ensures GetP2oParams(u + " " + name + "=" + v1 + "=" + v2) == Success(P2oParams(u, Some(v1)))
  {
    var text := u + " " + name + "=" + v1 + "=" + v2;
    var rest := name + "=" + v1 + "=" + v2;
    assert text == u + [' '] + rest;
    assert Text.SplitOnce(text, ' ') == [u, rest] by {
      var t := Text.SplitOnce(text, ' ');
      assert text[|u|] == ' ';
      SplitAtFirst(text, u, rest, t[0], t[1]);
    }
    assert rest == Text.Join([name, v1, v2], "=") by {
      assert Text.Join([name, v1, v2], "=") == name + "=" + Text.Join([v1, v2], "=");
      assert [name, v1, v2][1..] == [v1, v2];
      assert Text.Join([v1, v2], "=") == v1 + "=" + Text.Join([v2], "=");
      assert [v1, v2][1..] == [v2];
    }
    Text.JoinSplit([name, v1, v2], '=');
  }
}
