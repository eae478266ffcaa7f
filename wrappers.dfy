/** Optional values, used for lookups that can miss and for prompts that can go unanswered. */
module Wrappers {

  datatype Option<+T> = None | Some(value: T)
}
