/**
 * The browser tab as the engine sees it, and the tracker's two timestamp maps
 * read together as getCompletionTime does.
 */
module Tabs {
  import opened Wrappers

  /**
   * The fields of a `chrome.tabs.Tab` the engine reads. `url` is `None` when
   * the browser reports none (an unloaded or restricted tab).
   */
  datatype Tab = Tab(id: int, url: Option<string>, active: bool, audible: bool, pinned: bool)

  /** The tracker's `completionTimes` and `creationTimes` maps (tab id to `Date.now()`). */
  datatype Stamps = Stamps(completion: map<int, int>, creation: map<int, int>)
  {
    /**
     * getCompletionTime: `completionTimes.get(id) || creationTimes.get(id) || 0`.
     * A missing entry and a stored 0 are both falsy, so either falls through
     * to the next source.
     */
    function Of(id: int): (t: int)
      ensures id in completion && completion[id] != 0 ==> t == completion[id]
      ensures !(id in completion && completion[id] != 0) && id in creation ==> t == creation[id]
      ensures id !in completion && id !in creation ==> t == 0
      ensures t == 0 || (id in completion && t == completion[id]) || (id in creation && t == creation[id])
    {
      if id in completion && completion[id] != 0 then completion[id]
      else if id in creation && creation[id] != 0 then creation[id]
      else 0
    }
  }
}
