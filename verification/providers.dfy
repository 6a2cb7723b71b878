/** The provider table of src/lib/providers.ts: a name, a link builder
    and a colour per provider. */
module Providers {
  import opened Numbers

  /** A link builder is a total function of the two numbers alone; it
      receives them as `${...}` prints them. */
  datatype Row = Row(name: string, url: (string, string) -> string, color: string)

  /** The link a row builds for a coordinate. */
  function Url(row: Row, lat: Num, lng: Num): string {
    row.url(Show(lat), Show(lng))
  }

  function AppleUrl(la: string, ln: string): string {
    "http://maps.apple.com/?ll=" + la + "," + ln + "&z=16"
  }

  function EarthUrl(la: string, ln: string): string {
    "https://earth.google.com/web/@" + la + "," + ln + ",100a,35y,0h,0t,0r"
  }

  function GoogleUrl(la: string, ln: string): string {
    "https://www.google.com/maps/search/?api=1&query=" + la + "," + ln
  }

  function WazeUrl(la: string, ln: string): string {
    "https://waze.com/ul?ll=" + la + "," + ln + "&navigate=yes"
  }

  function OsmUrl(la: string, ln: string): string {
    "https://www.openstreetmap.org/?mlat=" + la + "&mlon=" + ln + "#map=16/" + la + "/" + ln
  }

  function BingUrl(la: string, ln: string): string {
    "https://www.bing.com/maps?cp=" + la + "~" + ln + "&lvl=16"
  }

  /** The one row that writes lng before lat. */
  function YandexUrl(la: string, ln: string): string {
    "https://yandex.com/maps/?ll=" + ln + "," + la + "&z=16"
  }

  function HereUrl(la: string, ln: string): string {
    "https://wego.here.com/?map=" + la + "," + ln + ",16,normal"
  }

  const Table: seq<Row> := [
    Row("Apple Maps", AppleUrl, "#000000"),
    Row("Google Earth", EarthUrl, "#1a73e8"),
    Row("Google Maps", GoogleUrl, "#34a853"),
    Row("Waze", WazeUrl, "#33ccff"),
    Row("OpenStreetMap", OsmUrl, "#7ad07a"),
    Row("Bing Maps", BingUrl, "#008374"),
    Row("Yandex Maps", YandexUrl, "#fc3f1d"),
    Row("Here WeGo", HereUrl, "#00afaa")
  ]
}
