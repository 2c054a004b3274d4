/** The widget instances the application page mounts, and what a visitor sees
    after a given number of taps on each. */
module Page {
  import Gallery
  import Reveal
  import Video

  /** The portfolio gallery of question D, tapped seven times: five images, so
      it shows the third one and its badge reads 3 / 5. */
  method PortfolioGallery() returns (badge: Gallery.CounterLabel, src: string)
    ensures badge == Gallery.CounterLabel(3, 5)
    ensures src == "/photo3.JPG"
  {
    var g := new Gallery.SwipeGallery(["/photo1.JPG", "/photo2.JPG", "/photo3.JPG", "/photo4.jpg", "/photo5.jpg"]);
    g.NextImage(); g.NextImage(); g.NextImage(); g.NextImage();
    g.NextImage(); g.NextImage(); g.NextImage();
    badge := g.Badge();
    src := g.CurrentImage();
  }

  /** The ranking of question E: two taps reveal the first two labels,
      highlight the second and mask the third; five taps reveal all three. */
  method RankingList() returns (afterTwo: seq<Reveal.ItemView>, afterFive: seq<Reveal.ItemView>)
    ensures afterTwo == [Reveal.ItemView(1, "Valencia", true, false),
                         Reveal.ItemView(2, "VALENCIA", true, true),
                         Reveal.ItemView(3, "???", false, false)]
    ensures afterFive == [Reveal.ItemView(1, "Valencia", true, false),
                          Reveal.ItemView(2, "VALENCIA", true, false),
                          Reveal.ItemView(3, "VALENCIA!!!", true, true)]
  {
    var r := new Reveal.RevealList(["Valencia", "VALENCIA", "VALENCIA!!!"]);
    r.RevealNext(); r.RevealNext();
    afterTwo := r.Views();
    r.RevealNext(); r.RevealNext(); r.RevealNext();
    afterFive := r.Views();
  }

  /** The video response of question A: clicked twice, it shows the embed. */
  method VideoResponse() returns (before: Video.Screen, after: Video.Screen)
    ensures before == Video.Thumbnail && after == Video.Embed
  {
    var v := new Video.VideoPlayer();
    before := v.View();
    v.OnClick(); v.OnClick();
    after := v.View();
  }
}
