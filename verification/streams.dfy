/** The stream record the addon sends to Stremio (main.go:634-638). */
module Streams {
  /** One playable stream: the label shown as its name, the descriptive title, and the media URL. */
  datatype Stream = Stream(name: string, title: string, url: string)
}
