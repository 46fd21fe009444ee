/** The meaning of a configuration string: a path and a list of options. */
module ConfigGrammar {
  import opened CStrings

  type Setting = (string, string)

  /** A token is cut at its first '='; without one the value is empty. */
  function SettingOf(token: string): Setting {
    (Before(token, '='), Beyond(token, '='))
  }

  /** The name ends at the first '=', which the value follows; a token without one is a name with the empty value. */
  lemma SettingIsNameAndValue(token: string)
    ensures var s := SettingOf(token);
            '=' !in s.0 && if '=' in token then token == s.0 + "=" + s.1 else s == (token, "")
  {
    PartsAroundFirst(token, '=');
  }

  /** The tokens the loop takes off the text, until nothing is left. */
  function Tokens(rest: string): seq<string>
    decreases |rest|
  {
    if rest == "" then [] else [Before(rest, ',')] + Tokens(Beyond(rest, ','))
  }

  function Settings(tokens: seq<string>): (r: seq<Setting>)
    ensures |r| == |tokens|
  {
    if tokens == [] then [] else [SettingOf(tokens[0])] + Settings(tokens[1..])
  }

  /** The settings in a text, first to last. */
  function SettingsIn(text: string): seq<Setting>
    decreases |text|
  {
    if text == "" then [] else [SettingOf(Before(text, ','))] + SettingsIn(Beyond(text, ','))
  }

  lemma {:induction false} SettingsInTokens(text: string)
    ensures SettingsIn(text) == Settings(Tokens(text))
    decreases |text|
  {
    if text == "" {
    } else {
      var tail := Tokens(Beyond(text, ','));
      SettingsInTokens(Beyond(text, ','));
      assert ([Before(text, ',')] + tail)[1..] == tail;
    }
  }

  function PathOf(config: string): string {
    Before(config, ',')
  }

  function SettingsOf(config: string): seq<Setting> {
    SettingsIn(Beyond(config, ','))
  }

  // ----- the comma pieces, independently -----

  function Join(pieces: seq<string>, c: char): string {
    if pieces == [] then ""
    else if |pieces| == 1 then pieces[0]
    else pieces[0] + [c] + Join(pieces[1..], c)
  }

  ghost predicate FreeOf(pieces: seq<string>, c: char) {
    forall i :: 0 <= i < |pieces| ==> c !in pieces[i]
  }

  /** All pieces between delimiters, empty ones included. */
  function Split(s: string, c: char): (pieces: seq<string>)
    ensures pieces != []
    decreases |s|
  {
    if c in s then [Before(s, c)] + Split(Beyond(s, c), c) else [s]
  }

  /** Splitting is the inverse of joining. */
  lemma {:induction false} JoinSplit(s: string, c: char)
    ensures FreeOf(Split(s, c), c) && Join(Split(s, c), c) == s
    decreases |s|
  {
    if c !in s {
    } else {
      JoinSplit(Beyond(s, c), c);
      assert s == Before(s, c) + [c] + Beyond(s, c);
      assert Split(s, c)[1..] == Split(Beyond(s, c), c);
    }
  }

  lemma CutAtDelimiter(head: string, c: char, tail: string)
    requires c !in head
    ensures c in head + [c] + tail
    ensures Before(head + [c] + tail, c) == head && Beyond(head + [c] + tail, c) == tail
  {
    FirstIndexUnique(head, c, tail);
    assert (head + [c] + tail)[|head|] == c;
  }

  lemma {:induction false} SplitJoin(pieces: seq<string>, c: char)
    requires pieces != [] && FreeOf(pieces, c)
    ensures Split(Join(pieces, c), c) == pieces
  {
    if |pieces| == 1 {
    } else {
      var tail := Join(pieces[1..], c);
      SplitJoin(pieces[1..], c);
      CutAtDelimiter(pieces[0], c, tail);
      assert pieces == [pieces[0]] + pieces[1..];
    }
  }

  function DropTrailingEmpty(pieces: seq<string>): seq<string> {
    if pieces != [] && pieces[|pieces| - 1] == "" then pieces[..|pieces| - 1] else pieces
  }

  lemma DropFromTail(head: string, pieces: seq<string>)
    requires pieces != []
    ensures DropTrailingEmpty([head] + pieces) == [head] + DropTrailingEmpty(pieces)
  {
  }

  /** The loop's tokens are the comma pieces, except that one trailing empty piece is dropped. */
  lemma {:induction false} TokensArePieces(rest: string)
    ensures Tokens(rest) == DropTrailingEmpty(Split(rest, ','))
    decreases |rest|
  {
    if rest != "" {
      var head, tail := Before(rest, ','), Beyond(rest, ',');
      TokensArePieces(tail);
      if ',' in rest {
        DropFromTail(head, Split(tail, ','));
      } else {
        assert head == rest && tail == "";
        assert Tokens(rest) == [rest];
      }
    }
  }

  /** The pieces of a whole configuration string: the path, then the settings. */
  lemma ConfigIsPieces(config: string)
    ensures ',' in config ==>
              && Split(config, ',')[0] == PathOf(config)
              && SettingsOf(config) == Settings(DropTrailingEmpty(Split(config, ',')[1..]))
    ensures ',' !in config ==> PathOf(config) == config && SettingsOf(config) == []
  {
    if ',' in config {
      TokensArePieces(Beyond(config, ','));
      SettingsInTokens(Beyond(config, ','));
      assert Split(config, ',')[1..] == Split(Beyond(config, ','), ',');
    }
  }

  // ----- rendering -----

  function RenderSetting(s: Setting): string {
    s.0 + "=" + s.1
  }

  function RenderSettings(settings: seq<Setting>): seq<string> {
    if settings == [] then [] else [RenderSetting(settings[0])] + RenderSettings(settings[1..])
  }

  /** The path and the settings, each written name=value, joined by commas. */
  function Render(path: string, settings: seq<Setting>): string {
    Join([path] + RenderSettings(settings), ',')
  }

  ghost predicate Renderable(path: string, settings: seq<Setting>) {
    && ',' !in path
    && forall i :: 0 <= i < |settings| ==> ',' !in settings[i].0 && ',' !in settings[i].1 && '=' !in settings[i].0
  }

  lemma {:induction false} RenderedSettings(settings: seq<Setting>)
    requires Renderable("", settings)
    ensures var r := RenderSettings(settings);
            && FreeOf(r, ',') && "" !in r && Settings(r) == settings
  {
    if settings == [] {
    } else {
      var s, rest := settings[0], settings[1..];
      var tokens := RenderSettings(rest);
      RenderedSettings(rest);
      CutAtDelimiter(s.0, '=', s.1);
      assert ([RenderSetting(s)] + tokens)[1..] == tokens;
      assert settings == [s] + rest;
    }
  }

  lemma ParsePieces(config: string, path: string, tokens: seq<string>)
    requires Split(config, ',') == [path] + tokens && "" !in tokens
    ensures PathOf(config) == path && SettingsOf(config) == Settings(tokens)
  {
    ConfigIsPieces(config);
    if tokens != [] {
      assert ([path] + tokens)[1..] == tokens && DropTrailingEmpty(tokens) == tokens;
      assert Split(config, ',')[0] == path && |Split(config, ',')| > 1;
    } else {
      assert |Split(config, ',')| == 1 && Split(config, ',')[0] == path;
    }
  }

  /** Parsing a rendered configuration gives back the path and the settings, in order. */
  lemma ParseRendered(path: string, settings: seq<Setting>)
    requires Renderable(path, settings)
    ensures PathOf(Render(path, settings)) == path
    ensures SettingsOf(Render(path, settings)) == settings
  {
    var tokens := RenderSettings(settings);
    RenderedSettings(settings);
    SplitJoin([path] + tokens, ',');
    ParsePieces(Render(path, settings), path, tokens);
  }

  /** `path,option` and `path,option,` both pass the option with the empty value. */
  lemma OptionWithoutValue(path: string, option: string)
    requires ',' !in path && ',' !in option && '=' !in option && option != ""
    ensures PathOf(path + "," + option) == path && SettingsOf(path + "," + option) == [(option, "")]
    ensures PathOf(path + "," + option + ",") == path && SettingsOf(path + "," + option + ",") == [(option, "")]
  {
    SettingIsNameAndValue(option);
    CutAtDelimiter(path, ',', option);
    CutAtDelimiter(path, ',', option + ",");
    CutAtDelimiter(option, ',', "");
    assert path + "," + option + "," == path + "," + (option + ",") && option + "," == option + "," + "";
    assert SettingsIn("") == [];
    PartsAroundFirst(option, ',');
  }
}
