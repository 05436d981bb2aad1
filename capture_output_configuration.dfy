/** The settings that steer what the output sink captures into the "last result"
    variable. In the source they are public static fields that can be reassigned at any
    time; the model passes their current values around as one record. */
module Config {
  import opened Wrappers

  datatype CaptureOutputConfiguration = CaptureOutputConfiguration(
    variableName: string,
    maximumItemCount: int,
    excludedTypes: Option<seq<string>>,   // None: the list was set to null
    captureValueTypes: bool,
    captureNull: bool)

  /** The type names whose objects are never captured into the variable, by default. */
  const DefaultExcludedTypes: seq<string> := [
    "HistoryPx.ExtendedHistoryConfiguration",
    "HistoryPx.CaptureOutputConfiguration",
    "System.String",
    "System.Management.Automation.Runspaces.ConsolidatedString",
    "HelpInfoShort",
    "MamlCommandHelpInfo",
    "System.Management.Automation.CommandInfo",
    "Microsoft.PowerShell.Commands.GenericMeasureInfo",
    "System.Management.Automation.PSMemberInfo",
    "Microsoft.PowerShell.Commands.MemberDefinition",
    "System.Type",
    "System.Management.Automation.PSVariable",
    "Microsoft.PowerShell.Commands.HistoryInfo#Extended"
  ]

  /** The settings as the static initialisers leave them. */
  function Default(): (c: CaptureOutputConfiguration)
    ensures c.variableName == "__"
    ensures c.maximumItemCount == 1000
    ensures c.excludedTypes == Some(DefaultExcludedTypes)
    ensures !c.captureValueTypes && !c.captureNull
  {
    CaptureOutputConfiguration("__", 1000, Some(DefaultExcludedTypes), false, false)
  }

  /** The variable as it is written in script text: a dollar sign, then the name. */
  function PowerShellVariableIdentifier(variableName: string): (r: string)
    ensures |r| == |variableName| + 1
    ensures r[0] == '$' && r[1..] == variableName
  {
    "$" + variableName
  }

  /** The default identifier is `$__`. */
  lemma DefaultIdentifier()
    ensures PowerShellVariableIdentifier(Default().variableName) == "$__"
  {
  }

  /** The default exclusion list has thirteen names, among them the plain
      string type and the extended history record's own type name. */
  lemma DefaultExcludedTypesShape()
    ensures |DefaultExcludedTypes| == 13
    ensures "System.String" in DefaultExcludedTypes
    ensures "Microsoft.PowerShell.Commands.HistoryInfo#Extended" in DefaultExcludedTypes
  {
    assert DefaultExcludedTypes[2] == "System.String";
    assert DefaultExcludedTypes[12] == "Microsoft.PowerShell.Commands.HistoryInfo#Extended";
  }
}
