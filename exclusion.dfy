/**
 * The two exclusion tests of the traversal. Each setting is an optional
 * space-separated list (`null` when the build file leaves it out) that is
 * tokenised with `split(" ")` on every test.
 */
module Exclusion {
  import opened Wrappers
  import opened JavaString

  /** A file is skipped when its name ends with some token of `excludeextensions`. */
  predicate ExcludedFile(name: string, excludeextensions: Option<string>)
  {
    excludeextensions.Some? &&
    exists t :: t in JavaSplit(excludeextensions.value) && EndsWith(name, t)
  }

  /** A folder is skipped when its name equals some token of `excludefolders`. */
  predicate ExcludedFolder(name: string, excludefolders: Option<string>)
  {
    excludefolders.Some? && name in JavaSplit(excludefolders.value)
  }

  /** The find-flag loop over the extension tokens, stopping at the first match. */
  method IsExcludedExtension(name: string, excludeextensions: Option<string>) returns (find: bool)
    ensures find == ExcludedFile(name, excludeextensions)
  {
    find := false;
    if excludeextensions.Some? {
      var tokens := JavaSplit(excludeextensions.value);
      var k := 0;
      while k < |tokens|
        invariant 0 <= k <= |tokens|
        invariant !find
        invariant forall j :: 0 <= j < k ==> !EndsWith(name, tokens[j])
      {
        if EndsWith(name, tokens[k]) {
          find := true;
          break;
        }
        k := k + 1;
      }
    }
  }

  /** The find-flag loop over the folder tokens, stopping at the first match. */
  method IsExcludedFolder(name: string, excludefolders: Option<string>) returns (find: bool)
    ensures find == ExcludedFolder(name, excludefolders)
  {
    find := false;
    if excludefolders.Some? {
      var tokens := JavaSplit(excludefolders.value);
      var k := 0;
      while k < |tokens|
        invariant 0 <= k <= |tokens|
        invariant !find
        invariant forall j :: 0 <= j < k ==> tokens[j] != name
      {
        if name == tokens[k] {
          find := true;
          break;
        }
        k := k + 1;
      }
    }
  }

  /**
   * A folder name is excluded exactly when it is one of the space-separated
   * fields of the setting; a name holding a space is never excluded.
   */
  lemma ExcludedFolderByField(name: string, excludefolders: string)
    requires name != ""
    ensures ExcludedFolder(name, Some(excludefolders)) <==> name in Fields(excludefolders)
    ensures ' ' in name ==> !ExcludedFolder(name, Some(excludefolders))
  {
    SplitTokens(excludefolders, name);
  }

  /**
   * An empty `excludeextensions` is the single empty token, which ends every
   * name: every file is then skipped.
   */
  lemma EmptyExtensionSettingExcludesAll(name: string)
    ensures ExcludedFile(name, Some(""))
  {
    SplitOfEmpty();
    assert "" in JavaSplit("");
  }

  /**
   * `excludeextensions` skips every file exactly when its split holds the
   * empty token, which `JavaString.SplitEmptyToken` characterises.
   */
  lemma ExcludesEveryFile(setting: string)
    ensures (forall name :: ExcludedFile(name, Some(setting))) <==> "" in JavaSplit(setting)
  {
    if "" in JavaSplit(setting) {
      forall name
        ensures ExcludedFile(name, Some(setting))
      {
        assert EndsWith(name, "");
      }
    } else {
      assert !ExcludedFile("", Some(setting));
    }
  }

  /** A leading space gives the empty token, so `" .class"` skips every file, not only class files. */
  lemma LeadingSpaceExcludesAll(name: string)
    ensures ExcludedFile(name, Some(" .class"))
  {
    SplitOfLeadingSpace();
    assert "" in JavaSplit(" .class") && EndsWith(name, "");
  }

  /** A setting of spaces only has no tokens and excludes nothing, like an absent one. */
  lemma SpacesOnlySettingExcludesNothing(name: string, setting: string)
    requires setting != []
    requires forall k :: 0 <= k < |setting| ==> setting[k] == ' '
    ensures !ExcludedFile(name, Some(setting))
    ensures !ExcludedFolder(name, Some(setting))
  {
    SplitOfSpaces(setting);
  }
}
