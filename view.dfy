/** The rendering decision of `getDom`: which icon, and whether a label, to show. */
module View {
  import opened Wrappers
  import opened Config

  /** An empty wrapper, or a container with an icon and an optional label. */
  datatype Display = Empty | Payload(icon: string, labelText: Option<string>)

  /** A waste type is shown when it is truthy, not "off", and configured in `wasteTypes`. */
  function Render(current: Option<string>, c: Config): (d: Display)
    ensures d.Payload? <==> current.Some? && current.value != "" && current.value != "off"
                            && current.value in c.wasteTypes
    ensures d.Payload? ==> d.icon == c.wasteTypes[current.value].icon
    ensures d.Payload? ==> (d.labelText.Some? <==> c.showText)
    ensures d.Payload? && d.labelText.Some? ==> d.labelText.value == c.wasteTypes[current.value].labelText
  {
    if current.Some? && current.value != "" && current.value != "off" && current.value in c.wasteTypes then
      var wasteConfig := c.wasteTypes[current.value];
      Payload(wasteConfig.icon, if c.showText then Some(wasteConfig.labelText) else None)
    else Empty
  }
}
