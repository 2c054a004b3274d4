/** The video player: a one-way switch from a thumbnail with a play button to
    the embedded player, thrown by the first click. */
module Video {

  /** What the player area shows. */
  datatype Screen = Thumbnail | Embed

  /** The click handler's updater `() => setIsPlaying(true)`: it ignores the old state. */
  function Click(isPlaying: bool): (r: bool)
    ensures r
  {
    true
  }

  /** `{!isPlaying ? <thumbnail and play button> : <iframe>}`. */
  function ScreenFor(isPlaying: bool): (s: Screen)
    ensures s == Embed <==> isPlaying
    ensures s == Thumbnail <==> !isPlaying
  {
    if !isPlaying then Thumbnail else Embed
  }

  /** The state after `clicks` clicks on a freshly mounted player (it starts not playing). */
  function PlayingAfter(clicks: nat): (r: bool)
    ensures r <==> clicks > 0
  {
    if clicks == 0 then false else Click(PlayingAfter(clicks - 1))
  }

  /** The player shows the embed exactly when it has been clicked at least once. */
  lemma {:induction false} PlayingIffClicked(clicks: nat)
    ensures ScreenFor(PlayingAfter(clicks)) == (if clicks > 0 then Embed else Thumbnail)
  {
  }

  /** Clicking is idempotent, and nothing turns the player back off. */
  lemma {:induction false} NeverStops(c1: nat, c2: nat)
    requires c1 <= c2 && PlayingAfter(c1)
    ensures PlayingAfter(c2)
    ensures forall b :: Click(Click(b)) == Click(b)
  {
  }

  /** The player widget; `clicks` counts the clicks since it was mounted. */
  class VideoPlayer {
    var isPlaying: bool
    ghost var clicks: nat

    ghost predicate Valid()
      reads this
    {
      isPlaying == PlayingAfter(clicks)
    }

    constructor ()
      ensures Valid() && !isPlaying && clicks == 0
    {
      isPlaying := false;
      clicks := 0;
    }

    /** A click anywhere on the player. */
    method OnClick()
      requires Valid()
      modifies this
      ensures Valid() && clicks == old(clicks) + 1
      ensures isPlaying == Click(old(isPlaying))
      ensures isPlaying
    {
      isPlaying := Click(isPlaying);
      clicks := clicks + 1;
    }

    /** The view: the embed once clicked, the thumbnail before. */
    function View(): (s: Screen)
      reads this
      requires Valid()
      ensures s == Embed <==> clicks > 0
    {
      PlayingIffClicked(clicks);
      ScreenFor(isPlaying)
    }
  }
}
