/** The module configuration the decision logic reads. */
module Config {
  import opened Wrappers
  import opened Keywords

  /** One entry of `wasteTypes`: the icon path and the label shown with it. */
  datatype WasteTypeConfig = WasteTypeConfig(icon: string, labelText: string)

  /** `calendarTriggerBefore` is in whole hours; `autoHideNextDayAt` is None when unset. */
  datatype Config = Config(
    calendarEnabled: bool,
    calendarKeywords: KeywordTable,
    calendarTriggerBefore: int,
    wasteTypes: map<string, WasteTypeConfig>,
    showText: bool,
    autoHideNextDayAt: Option<string>)

  /** `config.autoHideNextDayAt` is truthy: set and not the empty string. */
  predicate HideConfigured(c: Config) {
    c.autoHideNextDayAt.Some? && c.autoHideNextDayAt.value != ""
  }

  /** The default `calendarKeywords`, in the order they are written. */
  const DefaultKeywords: KeywordTable :=
    [ ("gelbe tonne", "wasteYellow"), ("gelbe", "wasteYellow"), ("yellow", "wasteYellow"),
      ("papier", "wasteBlue"), ("blaue tonne", "wasteBlue"), ("blue", "wasteBlue"),
      ("restm\U{00FC}ll", "wasteBlack"), ("schwarze tonne", "wasteBlack"), ("black", "wasteBlack"),
      ("bio", "wasteBio"), ("biotonne", "wasteBio"), ("gr\U{00FC}ne tonne", "wasteBio") ]

  /** The default `wasteTypes`. */
  const DefaultWasteTypes: map<string, WasteTypeConfig> :=
    map[
      "wasteYellow" := WasteTypeConfig("images/yellow.png", "Gelbe Tonne"),
      "wasteBlue" := WasteTypeConfig("images/blue.png", "Papier"),
      "wasteBlack" := WasteTypeConfig("images/black.png", "Restm\U{00FC}ll"),
      "wasteBio" := WasteTypeConfig("images/bio.png", "Biotonne")]

  /** The module's `defaults` block. Every waste type a default keyword maps to
      has an entry in the default `wasteTypes`, so a calendar match is displayable. */
  function Defaults(): (c: Config)
    ensures forall i :: 0 <= i < |c.calendarKeywords| ==> c.calendarKeywords[i].1 in c.wasteTypes
  {
    Config(true, DefaultKeywords, 18, DefaultWasteTypes, false, Some("10:00"))
  }
}
